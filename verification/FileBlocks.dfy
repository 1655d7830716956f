/** Which inode owns which disk block, and how allocating and freeing change that. */
module FileBlocks {
  import opened FsBlocks

  /** The superblock's numbers; `datastart` is the first block after the bitmap. */
  datatype Geometry = Geometry(size: int, ninodes: int, inodestart: int, bmapstart: int, datastart: int)

  predicate GeoOk(g: Geometry) {
    && 0 < g.inodestart && 0 < g.ninodes
    && g.inodestart + (g.ninodes - 1) / IPB < g.bmapstart
    && g.bmapstart + (g.size - 1) / BPB < g.datastart <= g.size < UINT
  }

  type Addrs = a: seq<int> | |a| == 13 && forall i :: 0 <= i < 13 ==> 0 <= a[i] < UINT witness seq(13, i => 0)
  /** The addresses of an inode without blocks. */
  function NoAddrs(): Addrs {
    seq(13, i => 0)
  }

  type Short = x: int | 0 <= x < 65536

  datatype Inode = Inode(itype: Short, major: Short, minor: Short, nlink: Short, size: int, addrs: Addrs)

  type Inodes = map<int, Inode>

  function BBlock(g: Geometry, b: int): int {
    b / BPB + g.bmapstart
  }

  function IBlock(g: Geometry, i: int): int {
    i / IPB + g.inodestart
  }

  predicate Used(g: Geometry, d: Disk, b: int)
    requires 0 <= b
  {
    Bit(Read(d, BBlock(g, b)), b % BPB)
  }

  // ---- slots: 0..11 direct, 12 the indirect block, 13.. its entries ----

  const NSLOTS := 141
  const INDIRECT := 12

  function SlotOf(bn: int): (s: int)
    requires 0 <= bn < MAXFILE
    ensures 0 <= s < NSLOTS && s != INDIRECT
  {
    if bn < NDIRECT then bn else bn + 1
  }

  function SlotBlock(d: Disk, ip: Inode, s: int): (b: int)
    requires 0 <= s < NSLOTS
    ensures 0 <= b < UINT
  {
    if s <= INDIRECT then ip.addrs[s]
    else if ip.addrs[INDIRECT] == 0 then 0
    else GetWord(Read(d, ip.addrs[INDIRECT]), s - 13)
  }

  datatype Slot = Slot(inum: int, s: int)

  type Owner = map<int, Slot>

  /** The block in a slot, if any, is recorded as owned by that slot. */
  ghost predicate SlotsOwned(d: Disk, inodes: Inodes, owner: Owner) {
    forall i, s :: i in inodes && 0 <= s < NSLOTS && SlotBlock(d, inodes[i], s) != 0 ==>
      SlotBlock(d, inodes[i], s) in owner && owner[SlotBlock(d, inodes[i], s)] == Slot(i, s)
  }

  /** Every recorded owner really has the block; owned blocks are data blocks. */
  ghost predicate OwnersHold(g: Geometry, d: Disk, inodes: Inodes, owner: Owner) {
    forall b :: b in owner ==>
      && owner[b].inum in inodes && 0 <= owner[b].s < NSLOTS
      && SlotBlock(d, inodes[owner[b].inum], owner[b].s) == b
      && g.datastart <= b < g.size
  }

  /** The bitmap marks exactly the metadata blocks and the owned blocks. */
  ghost predicate BitmapExact(g: Geometry, d: Disk, owner: Owner) {
    forall b :: 0 <= b < g.size ==> (Used(g, d, b) <==> b < g.datastart || b in owner)
  }

  ghost predicate Own(g: Geometry, d: Disk, inodes: Inodes, owner: Owner) {
    && GeoOk(g)
    && SlotsOwned(d, inodes, owner)
    && OwnersHold(g, d, inodes, owner)
    && BitmapExact(g, d, owner)
  }

  // ---- allocation ----

  /** What balloc does to the disk once it has chosen b. */
  function AllocDisk(g: Geometry, d: Disk, b: int): Disk
    requires 0 <= b
  {
    d[BBlock(g, b) := SetBit(Read(d, BBlock(g, b)), b % BPB)][b := Zero()]
  }

  lemma BitmapBelowData(g: Geometry, b: int)
    requires GeoOk(g) && 0 <= b < g.size
    ensures g.bmapstart <= BBlock(g, b) < g.datastart
  {
  }

  lemma AllocUsed(g: Geometry, d: Disk, b: int, c: int)
    requires GeoOk(g) && g.datastart <= b < g.size && 0 <= c < g.size
    ensures Used(g, AllocDisk(g, d, b), c) <==> c == b || Used(g, d, c)
  {
    BitmapBelowData(g, b);
    BitmapBelowData(g, c);
    if b / BPB == c / BPB {
      SetBitGet(Read(d, BBlock(g, b)), b % BPB, c % BPB);
    }
  }

  /** A freshly allocated block is nobody's, and nothing anybody owns changes. */
  lemma AllocFrame(g: Geometry, d: Disk, inodes: Inodes, owner: Owner, b: int)
    requires Own(g, d, inodes, owner) && 0 <= b < g.size && !Used(g, d, b)
    ensures g.datastart <= b && b !in owner
    ensures Read(AllocDisk(g, d, b), b) == Zero()
    ensures forall c :: c != b && (g.datastart <= c || c < g.bmapstart) ==> Read(AllocDisk(g, d, b), c) == Read(d, c)
    ensures forall c :: 0 <= c < g.size ==> (Used(g, AllocDisk(g, d, b), c) <==> c == b || Used(g, d, c))
  {
    var e := AllocDisk(g, d, b);
    BitmapBelowData(g, b);
    forall c | 0 <= c < g.size { AllocUsed(g, d, b, c); }
  }

  /** Two disks that agree on an inode's indirect block give it the same slots. */
  lemma SlotsAgree(d: Disk, e: Disk, ip: Inode)
    requires ip.addrs[INDIRECT] != 0 ==> Read(e, ip.addrs[INDIRECT]) == Read(d, ip.addrs[INDIRECT])
    ensures forall s :: 0 <= s < NSLOTS ==> SlotBlock(e, ip, s) == SlotBlock(d, ip, s)
  {
  }

  lemma AllSlotsAgree(d: Disk, e: Disk, inodes: Inodes, owner: Owner)
    requires SlotsOwned(d, inodes, owner)
    requires forall b :: b in owner && owner[b].s == INDIRECT ==> Read(e, b) == Read(d, b)
    ensures forall i, s :: i in inodes && 0 <= s < NSLOTS ==> SlotBlock(e, inodes[i], s) == SlotBlock(d, inodes[i], s)
  {
    forall i, s | i in inodes && 0 <= s < NSLOTS
      ensures SlotBlock(e, inodes[i], s) == SlotBlock(d, inodes[i], s)
    {
      assert SlotBlock(d, inodes[i], INDIRECT) == inodes[i].addrs[INDIRECT];
      SlotsAgree(d, e, inodes[i]);
    }
  }

  /** Filling one empty slot with a fresh block, whatever the slot, keeps ownership exact. */
  lemma OwnAfterAlloc(g: Geometry, d: Disk, e: Disk, inodes: Inodes, after: Inodes, owner: Owner, b: int, i: int,
      s: int)
    requires Own(g, d, inodes, owner) && b !in owner && g.datastart <= b < g.size
    requires i in inodes && 0 <= s < NSLOTS && SlotBlock(d, inodes[i], s) == 0 && after.Keys == inodes.Keys
    requires forall j, t :: j in inodes && 0 <= t < NSLOTS ==>
               SlotBlock(e, after[j], t) == if j == i && t == s then b else SlotBlock(d, inodes[j], t)
    requires forall c :: 0 <= c < g.size ==> (Used(g, e, c) <==> c == b || Used(g, d, c))
    ensures Own(g, e, after, owner[b := Slot(i, s)])
  {
    var owner' := owner[b := Slot(i, s)];
    forall j, t | j in after && 0 <= t < NSLOTS && SlotBlock(e, after[j], t) != 0
      ensures SlotBlock(e, after[j], t) in owner' && owner'[SlotBlock(e, after[j], t)] == Slot(j, t)
    {
      assert j in inodes;
    }
    forall c | c in owner'
      ensures && owner'[c].inum in after && 0 <= owner'[c].s < NSLOTS
              && SlotBlock(e, after[owner'[c].inum], owner'[c].s) == c
              && g.datastart <= c < g.size
    {
      if c != b { assert c in owner && owner[c] == owner'[c]; }
    }
  }

  function WithAddr(ip: Inode, s: int, b: int): Inode
    requires 0 <= s <= INDIRECT && 0 <= b < UINT
  {
    ip.(addrs := ip.addrs[s := b])
  }

  /** Putting a fresh block into an empty direct slot, or making it the indirect
      block, keeps ownership exact. A fresh indirect block has no entries. */
  lemma AllocInInode(g: Geometry, d: Disk, inodes: Inodes, owner: Owner, b: int, i: int, s: int)
    requires Own(g, d, inodes, owner) && 0 <= b < g.size && !Used(g, d, b)
    requires i in inodes && 0 <= s <= INDIRECT && inodes[i].addrs[s] == 0
    ensures var e := AllocDisk(g, d, b);
            var after := inodes[i := WithAddr(inodes[i], s, b)];
            && Own(g, e, after, owner[b := Slot(i, s)])
            && forall t :: 0 <= t < NSLOTS ==>
                 SlotBlock(e, after[i], t) == if t == s then b else SlotBlock(d, inodes[i], t)
  {
    var e := AllocDisk(g, d, b);
    var after := inodes[i := WithAddr(inodes[i], s, b)];
    AllocFrame(g, d, inodes, owner, b);
    AllSlotsAgree(d, e, inodes, owner);
    forall t | 0 <= t < NSLOTS
      ensures SlotBlock(e, after[i], t) == if t == s then b else SlotBlock(d, inodes[i], t)
    {
      if t > INDIRECT && s == INDIRECT { ZeroWords(t - 13); }
    }
    OwnAfterAlloc(g, d, e, inodes, after, owner, b, i, s);
  }

  /** The disk after entry s - 13 of the indirect block has been set to b. */
  function EntryDisk(d: Disk, ip: Inode, s: int, b: int): Disk
    requires INDIRECT < s < NSLOTS && 0 <= b < UINT
  {
    var ind := ip.addrs[INDIRECT];
    d[ind := SetWord(Read(d, ind), s - 13, b)]
  }

  lemma EntrySlots(d: Disk, e: Disk, ip: Inode, s: int, b: int)
    requires INDIRECT < s < NSLOTS && 0 <= b < UINT && ip.addrs[INDIRECT] != 0
    requires Read(e, ip.addrs[INDIRECT]) == Read(d, ip.addrs[INDIRECT])
    ensures forall t :: 0 <= t < NSLOTS ==>
              SlotBlock(EntryDisk(e, ip, s, b), ip, t) == if t == s then b else SlotBlock(d, ip, t)
  {
    forall t | INDIRECT < t < NSLOTS {
      SetWordGet(Read(e, ip.addrs[INDIRECT]), s - 13, b, t - 13);
    }
  }

  /** The bitmap depends on bitmap blocks only. */
  lemma UsedAgree(g: Geometry, d: Disk, e: Disk)
    requires GeoOk(g) && forall c :: g.bmapstart <= c < g.datastart ==> Read(e, c) == Read(d, c)
    ensures forall c :: 0 <= c < g.size ==> (Used(g, e, c) <==> Used(g, d, c))
  {
    forall c | 0 <= c < g.size { BitmapBelowData(g, c); }
  }

  lemma AllocInIndirect(g: Geometry, d: Disk, inodes: Inodes, owner: Owner, b: int, i: int, s: int)
    requires Own(g, d, inodes, owner) && 0 <= b < g.size && !Used(g, d, b)
    requires i in inodes && INDIRECT < s < NSLOTS
    requires inodes[i].addrs[INDIRECT] != 0 && SlotBlock(d, inodes[i], s) == 0
    ensures var e := EntryDisk(AllocDisk(g, d, b), inodes[i], s, b);
            && Own(g, e, inodes, owner[b := Slot(i, s)])
            && forall t :: 0 <= t < NSLOTS ==>
                 SlotBlock(e, inodes[i], t) == if t == s then b else SlotBlock(d, inodes[i], t)
  {
    var e1 := AllocDisk(g, d, b);
    var ind := inodes[i].addrs[INDIRECT];
    var e := EntryDisk(e1, inodes[i], s, b);
    AllocFrame(g, d, inodes, owner, b);
    assert SlotBlock(d, inodes[i], INDIRECT) == ind;
    assert owner[ind] == Slot(i, INDIRECT);
    EntrySlots(d, e1, inodes[i], s, b);
    OthersAgree(g, d, e, inodes, owner, i, ind);
    UsedAgree(g, e1, e);
    OwnAfterAlloc(g, d, e, inodes, inodes, owner, b, i, s);
  }

  /** Changing one inode's indirect block leaves every other inode's slots alone. */
  lemma OthersAgree(g: Geometry, d: Disk, e: Disk, inodes: Inodes, owner: Owner, i: int, ind: int)
    requires SlotsOwned(d, inodes, owner) && OwnersHold(g, d, inodes, owner)
    requires i in inodes && ind in owner && owner[ind] == Slot(i, INDIRECT)
    requires forall c :: c in owner && c != ind ==> Read(e, c) == Read(d, c)
    ensures forall j, s :: j in inodes && j != i && 0 <= s < NSLOTS ==>
              SlotBlock(e, inodes[j], s) == SlotBlock(d, inodes[j], s)
  {
    forall j, s | j in inodes && j != i && 0 <= s < NSLOTS
      ensures SlotBlock(e, inodes[j], s) == SlotBlock(d, inodes[j], s)
    {
      assert SlotBlock(d, inodes[j], INDIRECT) == inodes[j].addrs[INDIRECT];
      SlotsAgree(d, e, inodes[j]);
    }
  }

  /** Writing a data block changes no slot and no bitmap bit. */
  lemma DataWriteKeepsOwn(g: Geometry, d: Disk, inodes: Inodes, owner: Owner, b: int, x: Block)
    requires Own(g, d, inodes, owner) && b in owner && owner[b].s != INDIRECT
    ensures Own(g, d[b := x], inodes, owner)
    ensures forall i, s :: i in inodes && 0 <= s < NSLOTS ==>
              SlotBlock(d[b := x], inodes[i], s) == SlotBlock(d, inodes[i], s)
  {
    var e := d[b := x];
    AllSlotsAgree(d, e, inodes, owner);
    UsedAgree(g, d, e);
  }

  // ---- freeing ----

  function FreeDisk(g: Geometry, d: Disk, b: int): Disk
    requires 0 <= b
  {
    d[BBlock(g, b) := ClearBit(Read(d, BBlock(g, b)), b % BPB)]
  }

  lemma FreeUsed(g: Geometry, d: Disk, b: int, c: int)
    requires GeoOk(g) && 0 <= b < g.size && 0 <= c < g.size
    ensures Used(g, FreeDisk(g, d, b), c) <==> c != b && Used(g, d, c)
  {
    if b / BPB == c / BPB {
      ClearBitGet(Read(d, BBlock(g, b)), b % BPB, c % BPB);
    }
  }

  lemma FreeFrame(g: Geometry, d: Disk, b: int)
    requires GeoOk(g) && 0 <= b < g.size
    ensures forall c :: g.datastart <= c || c < g.bmapstart ==> Read(FreeDisk(g, d, b), c) == Read(d, c)
    ensures forall c :: 0 <= c < g.size ==> (Used(g, FreeDisk(g, d, b), c) <==> c != b && Used(g, d, c))
  {
    BitmapBelowData(g, b);
    forall c | 0 <= c < g.size { FreeUsed(g, d, b, c); }
  }

  /** Ownership in the middle of itrunc: the first `n` entries of i's indirect block
      are already free, though still written there. */
  ghost predicate OwnExcept(g: Geometry, d: Disk, inodes: Inodes, owner: Owner, i: int, n: int) {
    && GeoOk(g)
    && (forall j, s ::
          j in inodes && 0 <= s < NSLOTS && SlotBlock(d, inodes[j], s) != 0 && !(j == i && 13 <= s < 13 + n) ==>
            SlotBlock(d, inodes[j], s) in owner && owner[SlotBlock(d, inodes[j], s)] == Slot(j, s))
    && (forall c :: c in owner ==> !(owner[c].inum == i && 13 <= owner[c].s < 13 + n))
    && OwnersHold(g, d, inodes, owner)
    && BitmapExact(g, d, owner)
  }

  lemma FreeSlotsAgree(g: Geometry, d: Disk, inodes: Inodes, owner: Owner, i: int, n: int, b: int)
    requires OwnExcept(g, d, inodes, owner, i, n) && 0 <= b < g.size
    ensures forall j, s :: j in inodes && 0 <= s < NSLOTS ==>
              SlotBlock(FreeDisk(g, d, b), inodes[j], s) == SlotBlock(d, inodes[j], s)
  {
    FreeFrame(g, d, b);
    forall j, s | j in inodes && 0 <= s < NSLOTS
      ensures SlotBlock(FreeDisk(g, d, b), inodes[j], s) == SlotBlock(d, inodes[j], s)
    {
      assert SlotBlock(d, inodes[j], INDIRECT) == inodes[j].addrs[INDIRECT];
      SlotsAgree(d, FreeDisk(g, d, b), inodes[j]);
    }
  }

  /** Freeing an owned block finds its bit set, and the bitmap stays exact. */
  lemma FreeBitmap(g: Geometry, d: Disk, inodes: Inodes, owner: Owner, i: int, n: int, b: int)
    requires OwnExcept(g, d, inodes, owner, i, n) && b in owner
    ensures 0 <= b < g.size && Used(g, d, b)
    ensures BitmapExact(g, FreeDisk(g, d, b), owner - {b})
  {
    FreeFrame(g, d, b);
  }

  /** itrunc's first loop. */
  lemma FreeDirect(g: Geometry, d: Disk, inodes: Inodes, owner: Owner, i: int, s: int)
    requires i in inodes && 0 <= s < INDIRECT && inodes[i].addrs[s] != 0
    requires Own(g, d, inodes, owner)
    ensures var b := inodes[i].addrs[s];
            && b in owner && owner[b] == Slot(i, s) && Used(g, d, b)
            && Own(g, FreeDisk(g, d, b), inodes[i := WithAddr(inodes[i], s, 0)], owner - {b})
  {
    var b := inodes[i].addrs[s];
    var e := FreeDisk(g, d, b);
    var after := inodes[i := WithAddr(inodes[i], s, 0)];
    assert SlotBlock(d, inodes[i], s) == b;
    FreeBitmap(g, d, inodes, owner, i, 0, b);
    FreeSlotsAgree(g, d, inodes, owner, i, 0, b);
    assert forall j, t :: j in after && 0 <= t < NSLOTS ==>
             SlotBlock(e, after[j], t) == if j == i && t == s then 0 else SlotBlock(d, inodes[j], t);
  }

  /** itrunc's second loop: an entry of the indirect block. */
  lemma FreeEntry(g: Geometry, d: Disk, inodes: Inodes, owner: Owner, i: int, n: int)
    requires i in inodes && 0 <= n < NINDIRECT
    requires OwnExcept(g, d, inodes, owner, i, n)
    ensures var b := SlotBlock(d, inodes[i], 13 + n);
            && (b == 0 ==> OwnExcept(g, d, inodes, owner, i, n + 1))
            && (b != 0 ==>
                  && b in owner && owner[b] == Slot(i, 13 + n) && Used(g, d, b)
                  && OwnExcept(g, FreeDisk(g, d, b), inodes, owner - {b}, i, n + 1))
  {
    var b := SlotBlock(d, inodes[i], 13 + n);
    if b != 0 {
      FreeBitmap(g, d, inodes, owner, i, n, b);
      FreeSlotsAgree(g, d, inodes, owner, i, n, b);
    }
  }

  /** The end of itrunc: the indirect block, all of whose entries are free. */
  lemma FreeIndirect(g: Geometry, d: Disk, inodes: Inodes, owner: Owner, i: int)
    requires i in inodes && inodes[i].addrs[INDIRECT] != 0
    requires OwnExcept(g, d, inodes, owner, i, NINDIRECT)
    ensures var b := inodes[i].addrs[INDIRECT];
            && b in owner && owner[b] == Slot(i, INDIRECT) && Used(g, d, b)
            && Own(g, FreeDisk(g, d, b), inodes[i := WithAddr(inodes[i], INDIRECT, 0)], owner - {b})
  {
    var b := inodes[i].addrs[INDIRECT];
    var e := FreeDisk(g, d, b);
    var after := inodes[i := WithAddr(inodes[i], INDIRECT, 0)];
    assert SlotBlock(d, inodes[i], INDIRECT) == b;
    FreeBitmap(g, d, inodes, owner, i, NINDIRECT, b);
    FreeSlotsAgree(g, d, inodes, owner, i, NINDIRECT, b);
    assert forall j, t :: j in after && 0 <= t < NSLOTS ==>
             SlotBlock(e, after[j], t) == if j == i && t >= INDIRECT then 0 else SlotBlock(d, inodes[j], t);
  }
}
