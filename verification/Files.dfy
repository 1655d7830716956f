/** fs.c's block allocator and inode contents, updating the cached disk and the
    in-memory inodes in place. `disk` is what bread returns. */
module Files {
  import opened FsBlocks
  import opened FileBlocks

  ghost predicate DiskFull(g: Geometry, d: Disk) {
    forall c :: 0 <= c < g.size ==> Used(g, d, c)
  }

  datatype Option<+T> = None | Some(value: T)

  // ---- on-disk inodes ----

  function ShortBytes(x: Short): seq<Byte> {
    [x % 256, x / 256]
  }

  function AddrBytes(a: seq<int>): (s: seq<Byte>)
    requires forall i :: 0 <= i < |a| ==> 0 <= a[i] < UINT
    ensures |s| == 4 * |a|
  {
    if a == [] then [] else AddrBytes(a[..|a| - 1]) + WordBytes(a[|a| - 1])
  }

  /** struct dinode. */
  function EncodeInode(ip: Inode): (s: seq<Byte>)
    requires 0 <= ip.size < UINT
    ensures |s| == 64
  {
    ShortBytes(ip.itype) + ShortBytes(ip.major) + ShortBytes(ip.minor) + ShortBytes(ip.nlink)
    + WordBytes(ip.size) + AddrBytes(ip.addrs)
  }

  lemma {:induction false} AddrBytesInjective(a: seq<int>, b: seq<int>)
    requires |a| == |b| && (forall i :: 0 <= i < |a| ==> 0 <= a[i] < UINT && 0 <= b[i] < UINT)
    requires AddrBytes(a) == AddrBytes(b)
    ensures a == b
  {
    if a != [] {
      var n := |a| - 1;
      var x, y := AddrBytes(a[..n]), AddrBytes(b[..n]);
      assert x == AddrBytes(a)[..4 * n] && y == AddrBytes(b)[..4 * n];
      assert WordBytes(a[n]) == AddrBytes(a)[4 * n..] && WordBytes(b[n]) == AddrBytes(b)[4 * n..];
      WordRoundTrip(a[n]);
      WordRoundTrip(b[n]);
      AddrBytesInjective(a[..n], b[..n]);
      assert a == a[..n] + [a[n]] && b == b[..n] + [b[n]];
    }
  }

  /** An inode can be read back from its bytes: different inodes have different bytes. */
  lemma EncodeInodeInjective(ip: Inode, jp: Inode)
    requires 0 <= ip.size < UINT && 0 <= jp.size < UINT && EncodeInode(ip) == EncodeInode(jp)
    ensures ip == jp
  {
    var s, t := EncodeInode(ip), EncodeInode(jp);
    assert forall k :: 0 <= k < 64 ==> s[k] == t[k];
    assert s[0] == ip.itype % 256 && s[1] == ip.itype / 256 && t[0] == jp.itype % 256 && t[1] == jp.itype / 256;
    assert s[2] == ip.major % 256 && s[3] == ip.major / 256 && t[2] == jp.major % 256 && t[3] == jp.major / 256;
    assert s[4] == ip.minor % 256 && s[5] == ip.minor / 256 && t[4] == jp.minor % 256 && t[5] == jp.minor / 256;
    assert s[6] == ip.nlink % 256 && s[7] == ip.nlink / 256 && t[6] == jp.nlink % 256 && t[7] == jp.nlink / 256;
    assert s[8..12] == WordBytes(ip.size) && t[8..12] == WordBytes(jp.size);
    WordRoundTrip(ip.size);
    WordRoundTrip(jp.size);
    assert s[12..] == AddrBytes(ip.addrs) && t[12..] == AddrBytes(jp.addrs);
    AddrBytesInjective(ip.addrs, jp.addrs);
  }

  function InodeAt(i: int): (o: int)
    requires 0 <= i
    ensures 0 <= o <= 448
  {
    i % IPB * 64
  }

  /** The on-disk inode is the in-memory one. */
  predicate Synced(g: Geometry, d: Disk, ip: Inode, i: int)
    requires 0 <= i && 0 <= ip.size < UINT
  {
    Read(d, IBlock(g, i))[InodeAt(i)..InodeAt(i) + 64] == EncodeInode(ip)
  }

  function PutInode(g: Geometry, d: Disk, ip: Inode, i: int): Disk
    requires 0 <= i && 0 <= ip.size < UINT
  {
    var b := Read(d, IBlock(g, i));
    d[IBlock(g, i) := b[..InodeAt(i)] + EncodeInode(ip) + b[InodeAt(i) + 64..]]
  }

  // ---- file contents ----

  /** The disk block holding byte k of the file, or 0. */
  function BlockFor(d: Disk, ip: Inode, k: int): int
    requires 0 <= k < MAXFILE * BSIZE
  {
    SlotBlock(d, ip, SlotOf(k / BSIZE))
  }

  /** Every byte below len has a block. */
  ghost predicate Mapped(d: Disk, ip: Inode, len: int) {
    forall k :: 0 <= k < len && k < MAXFILE * BSIZE ==> BlockFor(d, ip, k) != 0
  }

  function ByteAt(d: Disk, ip: Inode, k: int): Byte
    requires 0 <= k < MAXFILE * BSIZE
  {
    Read(d, BlockFor(d, ip, k))[k % BSIZE]
  }

  function Contents(d: Disk, ip: Inode): (s: seq<Byte>)
    requires 0 <= ip.size <= MAXFILE * BSIZE
    ensures |s| == ip.size
  {
    seq<Byte>(ip.size, k requires 0 <= k < ip.size => ByteAt(d, ip, k))
  }

  /** `s` with `src` written over it at `off`, longer if `src` reaches past its end. */
  function Splice(s: seq<Byte>, off: int, src: seq<Byte>): (r: seq<Byte>)
    requires 0 <= off <= |s|
  {
    s[..off] + src + if off + |src| <= |s| then s[off + |src|..] else []
  }

  lemma PutInodeSynced(g: Geometry, d: Disk, ip: Inode, i: int, jp: Inode, j: int)
    requires 0 <= i && 0 <= ip.size < UINT && 0 <= j && 0 <= jp.size < UINT
    ensures Synced(g, PutInode(g, d, ip, i), ip, i)
    ensures j != i && Synced(g, d, jp, j) ==> Synced(g, PutInode(g, d, ip, i), jp, j)
  {
    var b := Read(d, IBlock(g, i));
    var o, p := InodeAt(i), InodeAt(j);
    var e := b[..o] + EncodeInode(ip) + b[o + 64..];
    assert e[o..o + 64] == EncodeInode(ip);
    if j != i && IBlock(g, i) == IBlock(g, j) {
      assert i % IPB != j % IPB;
      assert e[p..p + 64] == b[p..p + 64];
    }
  }

  // ---- what an operation on inode i may not disturb ----

  /** No other inode, none of its blocks' contents, and no inode block has changed. */
  ghost predicate KeepsOthers(g: Geometry, d: Disk, inodes: Inodes, e: Disk, after: Inodes, i: int) {
    && after.Keys == inodes.Keys
    && (forall j :: j in inodes && j != i ==> after[j] == inodes[j])
    && (forall j, s :: j in inodes && j != i && 0 <= s < NSLOTS ==>
         SlotBlock(e, inodes[j], s) == SlotBlock(d, inodes[j], s))
    && (forall j, s :: j in inodes && j != i && 0 <= s < NSLOTS && s != INDIRECT && SlotBlock(d, inodes[j], s) != 0 ==>
          Read(e, SlotBlock(d, inodes[j], s)) == Read(d, SlotBlock(d, inodes[j], s)))
  }

  /** Boot, super, log and inode blocks are as they were. */
  ghost predicate KeepsMeta(g: Geometry, d: Disk, e: Disk) {
    forall c :: c < g.bmapstart ==> Read(e, c) == Read(d, c)
  }

  /** The other inodes that were up to date on disk still are. */
  ghost predicate OthersSynced(g: Geometry, d: Disk, e: Disk, inodes: Inodes, i: int) {
    forall j :: j in inodes && j != i && 0 <= j && 0 <= inodes[j].size < UINT && Synced(g, d, inodes[j], j) ==>
      Synced(g, e, inodes[j], j)
  }

  /** Every data block the inode already had is still its block, with the same contents. */
  ghost predicate KeepsData(d: Disk, ip: Inode, e: Disk, ip': Inode) {
    && ip' == ip.(addrs := ip'.addrs)
    && (forall s :: 0 <= s < NSLOTS && SlotBlock(d, ip, s) != 0 ==> SlotBlock(e, ip', s) == SlotBlock(d, ip, s))
    && (forall s :: 0 <= s < NSLOTS && s != INDIRECT && SlotBlock(d, ip, s) != 0 ==>
          Read(e, SlotBlock(d, ip, s)) == Read(d, SlotBlock(d, ip, s)))
  }

  /** Changing no owned data block, and only i's own slots, disturbs nobody else. */
  lemma KeepsFromOwner(g: Geometry, d: Disk, inodes: Inodes, owner: Owner, e: Disk, after: Inodes, i: int)
    requires Own(g, d, inodes, owner) && i in inodes && after.Keys == inodes.Keys
    requires forall j :: j in inodes && j != i ==> after[j] == inodes[j]
    requires after[i] == inodes[i].(addrs := after[i].addrs)
    requires forall c :: c in owner && owner[c] != Slot(i, INDIRECT) ==> Read(e, c) == Read(d, c)
    requires forall s :: 0 <= s < NSLOTS && SlotBlock(d, inodes[i], s) != 0 ==>
              SlotBlock(e, after[i], s) == SlotBlock(d, inodes[i], s)
    ensures KeepsOthers(g, d, inodes, e, after, i) && KeepsData(d, inodes[i], e, after[i])
  {
    forall j, s | j in inodes && j != i && 0 <= s < NSLOTS
      ensures SlotBlock(e, inodes[j], s) == SlotBlock(d, inodes[j], s)
    {
      assert SlotBlock(d, inodes[j], INDIRECT) == inodes[j].addrs[INDIRECT];
      SlotsAgree(d, e, inodes[j]);
    }
  }

  lemma KeepsTransitive(g: Geometry, d: Disk, a: Inodes, e: Disk, b: Inodes, f: Disk, c: Inodes, i: int)
    requires i in a
    requires KeepsOthers(g, d, a, e, b, i) && KeepsData(d, a[i], e, b[i])
    requires KeepsOthers(g, e, b, f, c, i) && KeepsData(e, b[i], f, c[i])
    ensures KeepsOthers(g, d, a, f, c, i) && KeepsData(d, a[i], f, c[i])
  {
  }

  lemma OthersTransitive(g: Geometry, d: Disk, a: Inodes, e: Disk, b: Inodes, f: Disk, c: Inodes, i: int)
    requires KeepsOthers(g, d, a, e, b, i) && KeepsOthers(g, e, b, f, c, i)
    ensures KeepsOthers(g, d, a, f, c, i)
  {
  }

  /** Writing one of i's data blocks disturbs nobody else. */
  lemma DataWriteOthers(g: Geometry, d: Disk, inodes: Inodes, owner: Owner, i: int, b: int, x: Block)
    requires Own(g, d, inodes, owner) && b in owner && owner[b].inum == i && owner[b].s != INDIRECT
    ensures KeepsOthers(g, d, inodes, d[b := x], inodes, i) && KeepsMeta(g, d, d[b := x])
  {
    DataWriteKeepsOwn(g, d, inodes, owner, b, x);
  }

  /** bfree changes a free-map block only, so nobody's contents. */
  lemma FreeOthers(g: Geometry, d: Disk, inodes: Inodes, owner: Owner, i: int, n: int, b: int, after: Inodes)
    requires OwnExcept(g, d, inodes, owner, i, n) && b in owner && after.Keys == inodes.Keys
    requires forall j :: j in inodes && j != i ==> after[j] == inodes[j]
    ensures KeepsOthers(g, d, inodes, FreeDisk(g, d, b), after, i) && KeepsMeta(g, d, FreeDisk(g, d, b))
  {
    FreeFrame(g, d, b);
    FreeSlotsAgree(g, d, inodes, owner, i, n, b);
    forall j, s | j in inodes && j != i && 0 <= s < NSLOTS && s != INDIRECT && SlotBlock(d, inodes[j], s) != 0
      ensures Read(FreeDisk(g, d, b), SlotBlock(d, inodes[j], s)) == Read(d, SlotBlock(d, inodes[j], s))
    {
      assert SlotBlock(d, inodes[j], s) in owner;
    }
  }

  /** Blocks given up belonged to i, and nobody else's ownership changed. */
  ghost predicate OnlyReleases(before: Owner, after: Owner, i: int) {
    && (forall c :: c in after ==> c in before && after[c] == before[c])
    && (forall c :: c in before && before[c].inum != i ==> c in after)
  }

  /** Ownership does not look at sizes. */
  lemma ResizeKeepsOwn(g: Geometry, d: Disk, inodes: Inodes, owner: Owner, i: int, size: int)
    requires Own(g, d, inodes, owner) && i in inodes
    ensures var after := inodes[i := inodes[i].(size := size)];
            && Own(g, d, after, owner) && KeepsOthers(g, d, inodes, d, after, i)
            && forall s :: 0 <= s < NSLOTS ==> SlotBlock(d, after[i], s) == SlotBlock(d, inodes[i], s)
  {
    var after := inodes[i := inodes[i].(size := size)];
    assert forall j, s :: j in after && 0 <= s < NSLOTS ==> SlotBlock(d, after[j], s) == SlotBlock(d, inodes[j], s);
  }

  lemma OtherContents(g: Geometry, d: Disk, inodes: Inodes, e: Disk, after: Inodes, i: int, j: int)
    requires KeepsOthers(g, d, inodes, e, after, i) && j in inodes && j != i
    requires 0 <= inodes[j].size <= MAXFILE * BSIZE && Mapped(d, inodes[j], inodes[j].size)
    ensures after[j] == inodes[j] && Mapped(e, after[j], after[j].size)
              && Contents(e, after[j]) == Contents(d, inodes[j])
  {
    var ip := inodes[j];
    forall k | 0 <= k < ip.size
      ensures BlockFor(e, ip, k) != 0 && ByteAt(e, ip, k) == ByteAt(d, ip, k)
    {
      assert BlockFor(d, ip, k) != 0;
    }
    assert Contents(e, ip) == Contents(d, ip);
  }

  /** Writing the inode block touches no slot, no data and no bitmap bit. */
  lemma PutInodeKeepsOwn(g: Geometry, d: Disk, inodes: Inodes, owner: Owner, ip: Inode, i: int)
    requires Own(g, d, inodes, owner) && 0 <= i < g.ninodes && 0 <= ip.size < UINT
    ensures Own(g, PutInode(g, d, ip, i), inodes, owner)
    ensures forall c :: g.bmapstart <= c ==> Read(PutInode(g, d, ip, i), c) == Read(d, c)
    ensures forall j, s :: j in inodes && 0 <= s < NSLOTS ==>
              SlotBlock(PutInode(g, d, ip, i), inodes[j], s) == SlotBlock(d, inodes[j], s)
  {
    var e := PutInode(g, d, ip, i);
    assert IBlock(g, i) < g.bmapstart;
    AllSlotsAgree(d, e, inodes, owner);
    UsedAgree(g, d, e);
  }

  // ---- writing through a file's blocks ----

  function Max(a: int, b: int): int {
    if a < b then b else a
  }

  /** memmove into a buffer at byte o. */
  function Patch(b: Block, o: int, x: seq<Byte>): Block
    requires 0 <= o && o + |x| <= BSIZE
  {
    b[..o] + x + b[o + |x|..]
  }

  /** writei after `tot` bytes: exactly [off, off + tot) has been replaced. */
  ghost predicate Written(d0: Disk, ip0: Inode, d: Disk, ip: Inode, off: int, src: seq<Byte>, tot: int) {
    && 0 <= off <= ip0.size <= MAXFILE * BSIZE && 0 <= tot <= |src| && off + |src| <= MAXFILE * BSIZE
    && Mapped(d, ip, Max(ip0.size, off + tot))
    && forall k :: 0 <= k < Max(ip0.size, off + tot) ==>
         ByteAt(d, ip, k) == if off <= k < off + tot then src[k - off] else ByteAt(d0, ip0, k)
  }

  lemma WrittenContents(d0: Disk, ip0: Inode, d: Disk, ip: Inode, off: int, src: seq<Byte>)
    requires Written(d0, ip0, d, ip, off, src, |src|) && ip.size == Max(ip0.size, off + |src|)
    ensures Contents(d, ip) == Splice(Contents(d0, ip0), off, src)
  {
    var x, y := Contents(d, ip), Splice(Contents(d0, ip0), off, src);
    forall k | 0 <= k < |x|
      ensures x[k] == y[k]
    {
      assert ByteAt(d, ip, k) == x[k];
    }
  }

  /** One round of writei's loop, seen from byte k. */
  lemma WriteStepByte(g: Geometry, d0: Disk, ip0: Inode, d: Disk, ip: Inode, off: int, src: seq<Byte>, tot: int,
                      d1: Disk, inodes: Inodes, owner: Owner, i: int, m: int, k: int)
    requires Own(g, d1, inodes, owner) && i in inodes
    requires Written(d0, ip0, d, ip, off, src, tot) && KeepsData(d, ip, d1, inodes[i])
    requires 0 < m && tot + m <= |src| && m <= BSIZE - (off + tot) % BSIZE
    requires BlockFor(d1, inodes[i], off + tot) != 0
    requires 0 <= k < Max(ip0.size, off + tot + m)
    ensures var e := PutBytes(d1, inodes[i], off + tot, src[tot..tot + m]);
            && BlockFor(e, inodes[i], k) != 0
            && ByteAt(e, inodes[i], k) == if off <= k < off + tot + m then src[k - off] else ByteAt(d0, ip0, k)
  {
    SameBlock(off + tot, m, k);
    if !(off + tot <= k < off + tot + m) {
      assert BlockFor(d, ip, k) != 0;
      assert ByteAt(d1, inodes[i], k) == ByteAt(d, ip, k);
    }
    PutBytesAt(g, d1, inodes, owner, i, off + tot, src[tot..tot + m], k);
  }

  lemma WriteStep(g: Geometry, d0: Disk, ip0: Inode, d: Disk, ip: Inode, off: int, src: seq<Byte>, tot: int,
                  d1: Disk, inodes: Inodes, owner: Owner, i: int, m: int)
    requires Own(g, d1, inodes, owner) && i in inodes
    requires Written(d0, ip0, d, ip, off, src, tot) && KeepsData(d, ip, d1, inodes[i])
    requires 0 < m && tot + m <= |src| && m <= BSIZE - (off + tot) % BSIZE
    requires BlockFor(d1, inodes[i], off + tot) != 0
    ensures Written(d0, ip0, PutBytes(d1, inodes[i], off + tot, src[tot..tot + m]), inodes[i], off, src, tot + m)
  {
    var e := PutBytes(d1, inodes[i], off + tot, src[tot..tot + m]);
    forall k | 0 <= k < Max(ip0.size, off + tot + m)
      ensures BlockFor(e, inodes[i], k) != 0
      ensures ByteAt(e, inodes[i], k) == if off <= k < off + tot + m then src[k - off] else ByteAt(d0, ip0, k)
    {
      WriteStepByte(g, d0, ip0, d, ip, off, src, tot, d1, inodes, owner, i, m, k);
    }
  }

  lemma SameBlock(a: int, m: int, k: int)
    requires 0 <= a && 0 < m <= BSIZE - a % BSIZE && 0 <= k
    ensures a <= k < a + m ==> k / BSIZE == a / BSIZE && k % BSIZE == a % BSIZE + (k - a)
    ensures k / BSIZE == a / BSIZE && !(a <= k < a + m) ==> k % BSIZE < a % BSIZE || a % BSIZE + m <= k % BSIZE
  {
    if a <= k < a + m {
      assert k == a / BSIZE * BSIZE + (a % BSIZE + (k - a));
    }
  }

  /** fs.c's overflow test: off + n < off in 32-bit arithmetic. */
  predicate Wraps(off: int, n: int)
    requires 0 <= off < UINT && 0 <= n < UINT
    ensures Wraps(off, n) <==> off + n >= UINT
  {
    (off + n) % UINT < off
  }

  /** A stretch within one block of a file is the same stretch of its contents. */
  lemma ChunkContents(d: Disk, ip: Inode, a: int, m: int)
    requires 0 <= a && 0 < m <= BSIZE - a % BSIZE && a + m <= ip.size <= MAXFILE * BSIZE
    ensures Read(d, BlockFor(d, ip, a))[a % BSIZE..a % BSIZE + m] == Contents(d, ip)[a..a + m]
  {
    var x := Read(d, BlockFor(d, ip, a))[a % BSIZE..a % BSIZE + m];
    var y := Contents(d, ip)[a..a + m];
    forall k | 0 <= k < m
      ensures x[k] == y[k]
    {
      SameBlock(a, m, a + k);
    }
  }

  /** The disk after the bytes x, which lie within one block, are put at byte a of the file. */
  function PutBytes(d: Disk, ip: Inode, a: int, x: seq<Byte>): Disk
    requires 0 <= a < MAXFILE * BSIZE && |x| <= BSIZE - a % BSIZE
  {
    var addr := BlockFor(d, ip, a);
    d[addr := Patch(Read(d, addr), a % BSIZE, x)]
  }

  lemma PutBytesAt(g: Geometry, d: Disk, inodes: Inodes, owner: Owner, i: int, a: int, x: seq<Byte>, k: int)
    requires Own(g, d, inodes, owner) && i in inodes
    requires 0 <= a < MAXFILE * BSIZE && 0 < |x| <= BSIZE - a % BSIZE && 0 <= k < MAXFILE * BSIZE
    requires BlockFor(d, inodes[i], a) != 0 && BlockFor(d, inodes[i], k) != 0
    ensures BlockFor(PutBytes(d, inodes[i], a, x), inodes[i], k) == BlockFor(d, inodes[i], k)
    ensures ByteAt(PutBytes(d, inodes[i], a, x), inodes[i], k) == if a <= k < a + |x| then x[k - a]
              else ByteAt(d, inodes[i], k)
  {
    var addr := BlockFor(d, inodes[i], a);
    SameBlock(a, |x|, k);
    DataBlockWrite(g, d, inodes, owner, i, a / BSIZE, Patch(Read(d, addr), a % BSIZE, x), k / BSIZE);
  }

  /** Writing block bn of a file leaves its other blocks' contents alone. */
  lemma DataBlockWrite(g: Geometry, d: Disk, inodes: Inodes, owner: Owner, i: int, bn: int, x: Block, q: int)
    requires Own(g, d, inodes, owner) && i in inodes && 0 <= bn < MAXFILE && 0 <= q < MAXFILE
    requires SlotBlock(d, inodes[i], SlotOf(bn)) != 0
    ensures var addr := SlotBlock(d, inodes[i], SlotOf(bn)); var b := SlotBlock(d, inodes[i], SlotOf(q));
            && SlotBlock(d[addr := x], inodes[i], SlotOf(q)) == b
            && (q != bn && b != 0 ==> b != addr && Read(d[addr := x], b) == Read(d, b))
  {
    var addr := SlotBlock(d, inodes[i], SlotOf(bn));
    assert owner[addr] == Slot(i, SlotOf(bn));
    assert SlotBlock(d, inodes[i], INDIRECT) == inodes[i].addrs[INDIRECT];
    SlotsAgree(d, d[addr := x], inodes[i]);
    if q != bn && SlotBlock(d, inodes[i], SlotOf(q)) != 0 {
      assert owner[SlotBlock(d, inodes[i], SlotOf(q))] == Slot(i, SlotOf(q));
    }
  }

  /** The blocks of the free map. */
  predicate InBitmap(g: Geometry, c: int) {
    g.bmapstart <= c <= g.bmapstart + (g.size - 1) / BPB
  }

  /** log_write named nothing new but free-map blocks and the blocks x and y. */
  predicate LogsOnly(g: Geometry, before: set<int>, after: set<int>, x: int, y: int) {
    forall c :: c in after ==> c in before || InBitmap(g, c) || (c == x && x != 0) || c == y
  }

  lemma AllocLogs(g: Geometry, before: set<int>, x: int, b: int)
    requires 0 <= b < g.size
    ensures LogsOnly(g, before, before + {BBlock(g, b), b}, x, b)
    ensures x != 0 ==> LogsOnly(g, before, before + {BBlock(g, b), b, x}, x, b)
  {
  }

  lemma EntryAllocated(g: Geometry, d: Disk, inodes: Inodes, owner: Owner, b: int, i: int, s: int)
    requires Own(g, d, inodes, owner) && 0 <= b < g.size && !Used(g, d, b)
    requires i in inodes && INDIRECT < s < NSLOTS
    requires inodes[i].addrs[INDIRECT] != 0 && SlotBlock(d, inodes[i], s) == 0
    ensures var e := EntryDisk(AllocDisk(g, d, b), inodes[i], s, b);
            && Own(g, e, inodes, owner[b := Slot(i, s)])
            && KeepsMeta(g, d, e) && KeepsOthers(g, d, inodes, e, inodes, i) && KeepsData(d, inodes[i], e, inodes[i])
            && SlotBlock(e, inodes[i], s) == b != 0 && Read(e, b) == Zero()
  {
    assert SlotBlock(d, inodes[i], INDIRECT) == inodes[i].addrs[INDIRECT];
    AllocFrame(g, d, inodes, owner, b);
    AllocInIndirect(g, d, inodes, owner, b, i, s);
    KeepsFromOwner(g, d, inodes, owner, EntryDisk(AllocDisk(g, d, b), inodes[i], s, b), inodes, i);
  }

  lemma AddrAllocated(g: Geometry, d: Disk, inodes: Inodes, owner: Owner, b: int, i: int, s: int)
    requires Own(g, d, inodes, owner) && 0 <= b < g.size && !Used(g, d, b)
    requires i in inodes && 0 <= s <= INDIRECT && inodes[i].addrs[s] == 0
    ensures var e := AllocDisk(g, d, b); var after := inodes[i := WithAddr(inodes[i], s, b)];
            && Own(g, e, after, owner[b := Slot(i, s)])
            && KeepsMeta(g, d, e) && KeepsOthers(g, d, inodes, e, after, i) && KeepsData(d, inodes[i], e, after[i])
            && b != 0 && Read(e, b) == Zero()
  {
    var e := AllocDisk(g, d, b);
    var after := inodes[i := WithAddr(inodes[i], s, b)];
    AllocFrame(g, d, inodes, owner, b);
    AllocInInode(g, d, inodes, owner, b, i, s);
    KeepsFromOwner(g, d, inodes, owner, e, after, i);
  }

  /** The blocks one writei logs: free-map blocks, the indirect block, and the data blocks `s`. */
  predicate LogsWithin(g: Geometry, before: set<int>, after: set<int>, ind: int, s: set<int>) {
    forall c :: c in after ==> c in before || InBitmap(g, c) || (c == ind && ind != 0) || c in s
  }

  lemma SubsetSize<T>(a: set<T>, b: set<T>)
    requires a <= b
    ensures |a| <= |b|
  {
    if a != {} {
      var x :| x in a;
      SubsetSize(a - {x}, b - {x});
    }
  }

  /** With a one-block free map, a write of n bytes logs its data blocks and three more. */
  lemma LogBudget(g: Geometry, before: set<int>, after: set<int>, ind: int, touched: set<int>, extra: int)
    requires 0 < g.size <= BPB && LogsWithin(g, before, after, ind, touched)
    ensures |after + {extra} - before| <= |touched| + 3
    ensures |after - before| <= |touched| + 3
  {
    var all := touched + {g.bmapstart} + {ind} + {extra};
    forall c | c in after + {extra} - before
      ensures c in all
    {
      if InBitmap(g, c) { assert (g.size - 1) / BPB == 0; }
    }
    SubsetSize(after + {extra} - before, all);
    SubsetSize(after - before, all);
  }

  lemma PutInodeOthers(g: Geometry, d: Disk, inodes: Inodes, owner: Owner, i: int)
    requires Own(g, d, inodes, owner) && i in inodes && 0 <= i < g.ninodes && 0 <= inodes[i].size < UINT
    ensures KeepsOthers(g, d, inodes, PutInode(g, d, inodes[i], i), inodes, i)
  {
    PutInodeKeepsOwn(g, d, inodes, owner, inodes[i], i);
  }

  /** Inode blocks untouched: every on-disk inode is as it was. */
  ghost predicate KeepsSynced(g: Geometry, d: Disk, inodes: Inodes, e: Disk, after: Inodes) {
    forall j :: j in inodes && j in after && 0 <= j && 0 <= inodes[j].size < UINT && 0 <= after[j].size < UINT ==>
      (Synced(g, d, inodes[j], j) ==> Synced(g, e, after[j], j))
  }

  lemma MetaSynced(g: Geometry, d0: Disk, d: Disk, inodes: Inodes, e: Disk, after: Inodes, i: int)
    requires GeoOk(g) && KeepsMeta(g, d0, d) && KeepsSynced(g, d, inodes, e, after) && after.Keys == inodes.Keys
    requires forall j :: j in inodes && j != i ==> after[j] == inodes[j] && 0 < j < g.ninodes
    ensures OthersSynced(g, d0, e, after, i)
  {
    forall j | j in after && j != i && 0 <= after[j].size < UINT && Synced(g, d0, after[j], j)
      ensures Synced(g, e, after[j], j)
    {
      assert IBlock(g, j) < g.bmapstart;
      assert Read(d, IBlock(g, j)) == Read(d0, IBlock(g, j));
    }
  }

  const FILEWRITE_MAX := 1536   // ((MAXOPBLOCKS-1-1-2) / 2) * 512

  datatype WriteResult = Wrote(n: int) | Refused | OutOfBlocks

  /** Writing in two adjacent pieces is writing once. */
  lemma SpliceSplice(s: seq<Byte>, off: int, x: seq<Byte>, y: seq<Byte>)
    requires 0 <= off <= |s|
    ensures off + |x| <= |Splice(s, off, x)|
    ensures Splice(Splice(s, off, x), off + |x|, y) == Splice(s, off, x + y)
  {
  }

  /** `t` is `s` after writing `x` at `off`; writing nothing is allowed at any offset. */
  predicate Appended(s: seq<Byte>, off: int, x: seq<Byte>, t: seq<Byte>) {
    if x == [] then t == s else 0 <= off <= |s| && t == Splice(s, off, x)
  }

  lemma AppendMore(s: seq<Byte>, off: int, addr: seq<Byte>, done: int, n: int, t: seq<Byte>, u: seq<Byte>)
    requires 0 <= off && 0 <= done && 0 < n && done + n <= |addr| && off + done <= |t|
    requires Appended(s, off, addr[..done], t) && u == Splice(t, off + done, addr[done..done + n])
    ensures Appended(s, off, addr[..done + n], u)
  {
    assert addr[..done] + addr[done..done + n] == addr[..done + n];
    if done > 0 {
      SpliceSplice(s, off, addr[..done], addr[done..done + n]);
    } else {
      assert addr[done..done + n] == addr[..done + n];
    }
  }

  /** How many bytes the first k operations of filewrite write. */
  function Chunks(addr: seq<Byte>, k: int): int {
    if k * FILEWRITE_MAX <= |addr| then k * FILEWRITE_MAX else |addr|
  }

  /** After each operation the file holds a prefix of the bytes, whole chunks of it. */
  ghost predicate WholeChunks(g: Geometry, i: int, s0: seq<Byte>, off0: int, addr: seq<Byte>,
      after: seq<(Disk, Inode)>) {
    forall k :: 0 <= k < |after| ==>
      && 0 <= Chunks(addr, k) <= |addr| && 0 <= after[k].1.size <= MAXFILE * BSIZE
      && Appended(s0, off0, addr[..Chunks(addr, k)], Contents(after[k].0, after[k].1))
  }

  lemma ChunksStep(addr: seq<Byte>, k: int)
    requires 0 <= k && Chunks(addr, k) < |addr|
    ensures Chunks(addr, k + 1) == Chunks(addr, k) +
              if |addr| - Chunks(addr, k) > FILEWRITE_MAX then FILEWRITE_MAX else |addr| - Chunks(addr, k)
  {
  }

  lemma ChunkDone(g: Geometry, i: int, s0: seq<Byte>, off0: int, addr: seq<Byte>, after: seq<(Disk, Inode)>,
                  x: (Disk, Inode), done: int, n: int)
    requires WholeChunks(g, i, s0, off0, addr, after) && |after| > 0 && 0 <= done == Chunks(addr, |after| - 1) < |addr|
    requires n == if |addr| - done > FILEWRITE_MAX then FILEWRITE_MAX else |addr| - done
    requires 0 <= x.1.size <= MAXFILE * BSIZE && Appended(s0, off0, addr[..done + n], Contents(x.0, x.1))
    ensures WholeChunks(g, i, s0, off0, addr, after + [x]) && Chunks(addr, |after|) == done + n
  {
    ChunksStep(addr, |after| - 1);
  }

  lemma SyncedMore(g: Geometry, i: int, after: seq<(Disk, Inode)>, d: Disk, inodes: Inodes, e: Disk, now: Inodes)
    requires EachSynced(g, i, after) && |after| > 0 && i in inodes && i in now && after[|after| - 1] == (d, inodes[i])
    requires KeepsSynced(g, d, inodes, e, now) && 0 <= now[i].size < UINT
    ensures EachSynced(g, i, after + [(e, now[i])])
  {
  }

  ghost predicate EachSynced(g: Geometry, i: int, after: seq<(Disk, Inode)>) {
    forall k :: 0 <= k < |after| ==> 0 <= i && 0 <= after[k].1.size < UINT && Synced(g, after[k].0, after[k].1, i)
  }

  /** filewrite after the operations that `after` records, with `done` bytes written. */
  ghost predicate ChunksSoFar(g: Geometry, i: int, d0: Disk, i0: Inodes, off0: int, addr: seq<Byte>,
                              after: seq<(Disk, Inode)>, d: Disk, inodes: Inodes, done: int) {
    && 0 <= i && i in i0 && i in inodes && 0 <= i0[i].size <= MAXFILE * BSIZE
    && |after| > 0 && after[0] == (d0, i0[i]) && after[|after| - 1] == (d, inodes[i])
         && done == Chunks(addr, |after| - 1)
    && WholeChunks(g, i, Contents(d0, i0[i]), off0, addr, after)
    && (Synced(g, d0, i0[i], i) ==> EachSynced(g, i, after))
    && KeepsOthers(g, d0, i0, d, inodes, i)
  }

  lemma ChunkAdded(g: Geometry, i: int, d0: Disk, i0: Inodes, off0: int, addr: seq<Byte>, before: seq<(Disk, Inode)>,
                   d1: Disk, i1: Inodes, d: Disk, inodes: Inodes, done: int, n: int)
    requires ChunksSoFar(g, i, d0, i0, off0, addr, before, d1, i1, done) && 0 <= off0 && 0 <= done < |addr|
    requires n == (if |addr| - done > FILEWRITE_MAX then FILEWRITE_MAX else |addr| - done) && off0 + done <= i1[i].size
    requires i in inodes && 0 <= i1[i].size <= MAXFILE * BSIZE && 0 <= inodes[i].size <= MAXFILE * BSIZE
    requires Contents(d, inodes[i]) == Splice(Contents(d1, i1[i]), off0 + done, addr[done..done + n])
    requires KeepsOthers(g, d1, i1, d, inodes, i) && KeepsSynced(g, d1, i1, d, inodes)
    ensures ChunksSoFar(g, i, d0, i0, off0, addr, before + [(d, inodes[i])], d, inodes, done + n)
  {
    OthersTransitive(g, d0, i0, d1, i1, d, inodes, i);
    ChunksNow(g, i, d0, i0, off0, addr, before, d1, i1, done);
    AppendMore(Contents(d0, i0[i]), off0, addr, done, n, Contents(d1, i1[i]), Contents(d, inodes[i]));
    ChunkDone(g, i, Contents(d0, i0[i]), off0, addr, before, (d, inodes[i]), done, n);
    if Synced(g, d0, i0[i], i) { SyncedMore(g, i, before, d1, i1, d, inodes); }
  }

  lemma ChunksNow(g: Geometry, i: int, d0: Disk, i0: Inodes, off0: int, addr: seq<Byte>, after: seq<(Disk, Inode)>,
                  d: Disk, inodes: Inodes, done: int)
    requires ChunksSoFar(g, i, d0, i0, off0, addr, after, d, inodes, done)
    ensures 0 <= done <= |addr| && 0 <= inodes[i].size <= MAXFILE * BSIZE
    ensures Appended(Contents(d0, i0[i]), off0, addr[..done], Contents(d, inodes[i]))
  {
  }

  lemma ChunksStart(g: Geometry, i: int, d: Disk, inodes: Inodes, off0: int, addr: seq<Byte>)
    requires 0 <= i && i in inodes && 0 <= inodes[i].size <= MAXFILE * BSIZE
    ensures ChunksSoFar(g, i, d, inodes, off0, addr, [(d, inodes[i])], d, inodes, 0)
  {
    assert addr[..0] == [];
  }

  class Fs {
    const g: Geometry
    var disk: Disk
    var inodes: Inodes
    var logged: set<int>      // blocks log_write has named since the operation began
    ghost var owner: Owner

    ghost predicate Valid()
      reads this
    {
      && Own(g, disk, inodes, owner)
      && forall i :: i in inodes ==> 0 < i < g.ninodes && 0 <= inodes[i].size <= MAXFILE * BSIZE
    }

    constructor (g: Geometry, d: Disk, inodes: Inodes, ghost owner: Owner)
      requires Own(g, d, inodes, owner)
      requires forall i :: i in inodes ==> 0 < i < g.ninodes && 0 <= inodes[i].size <= MAXFILE * BSIZE
      ensures Valid() && this.g == g && disk == d && this.inodes == inodes && logged == {} && this.owner == owner
    {
      this.g, disk, this.inodes, logged, this.owner := g, d, inodes, {}, owner;
    }

    /** The first free block, marked used and zeroed; `false` is panic("balloc: out of blocks"). */
    method Balloc() returns (ok: bool, b: int)
      requires GeoOk(g)
      modifies `disk, `logged
      ensures ok ==> 0 <= b < g.size && !old(Used(g, disk, b)) && forall c :: 0 <= c < b ==> old(Used(g, disk, c))
      ensures ok ==> disk == AllocDisk(g, old(disk), b) && logged == old(logged) + {BBlock(g, b), b}
      ensures !ok ==> disk == old(disk) && logged == old(logged) && DiskFull(g, disk)
    {
      var base := 0;
      while base < g.size
        invariant 0 <= base && base % BPB == 0
        invariant disk == old(disk) && logged == old(logged)
        invariant forall c :: 0 <= c < base && c < g.size ==> Used(g, disk, c)
        decreases g.size - base
      {
        var bp := Read(disk, BBlock(g, base));
        var bi := 0;
        while bi < BPB && base + bi < g.size
          invariant 0 <= bi <= BPB
          invariant disk == old(disk) && logged == old(logged)
          invariant forall c :: 0 <= c < base + bi && c < g.size ==> Used(g, disk, c)
        {
          assert (base + bi) / BPB == base / BPB && (base + bi) % BPB == bi;
          if !Bit(bp, bi) {
            b := base + bi;
            disk := disk[BBlock(g, base) := SetBit(bp, bi)];
            logged := logged + {BBlock(g, base)};
            disk := disk[b := Zero()];
            logged := logged + {b};
            return true, b;
          }
          bi := bi + 1;
        }
        base := base + BPB;
      }
      ok, b := false, 0;
    }

    /** Clears b's bit; `false` is panic("freeing free block"). */
    method Bfree(b: int) returns (ok: bool)
      requires 0 <= b
      modifies `disk, `logged
      ensures ok == old(Used(g, disk, b))
      ensures ok ==> disk == FreeDisk(g, old(disk), b) && logged == old(logged) + {BBlock(g, b)}
      ensures !ok ==> disk == old(disk) && logged == old(logged)
    {
      var bp := Read(disk, BBlock(g, b));
      var bi := b % BPB;
      if !Bit(bp, bi) {
        return false;
      }
      disk := disk[BBlock(g, b) := ClearBit(bp, bi)];
      logged := logged + {BBlock(g, b)};
      return true;
    }

    /** balloc into an empty slot of the inode itself: a direct slot or the indirect block's. */
    method AllocAddr(i: int, s: int) returns (ok: bool)
      requires Valid() && i in inodes && 0 <= s <= INDIRECT && inodes[i].addrs[s] == 0
      modifies this
      ensures ok ==> Valid() && i in inodes && inodes[i].addrs[s] != 0
      ensures ok ==> KeepsMeta(g, old(disk), disk) && KeepsOthers(g, old(disk), old(inodes), disk, inodes, i)
      ensures ok ==> KeepsData(old(disk), old(inodes)[i], disk, inodes[i])
      ensures ok ==>
                Read(disk, inodes[i].addrs[s]) == Zero() && inodes[i] == WithAddr(old(inodes)[i], s, inodes[i].addrs[s])
      ensures ok ==>
                inodes[i].addrs[s] < g.size
                && logged == old(logged) + {BBlock(g, inodes[i].addrs[s]), inodes[i].addrs[s]}
      ensures !ok ==> DiskFull(g, disk)
    {
      var b;
      ok, b := Balloc();
      if ok {
        AddrAllocated(g, old(disk), inodes, owner, b, i, s);
        inodes := inodes[i := WithAddr(inodes[i], s, b)];
        owner := owner[b := Slot(i, s)];
      }
    }

    /** balloc into an empty entry of the indirect block. */
    method AllocEntry(i: int, s: int) returns (ok: bool)
      requires Valid() && i in inodes && INDIRECT < s < NSLOTS
      requires inodes[i].addrs[INDIRECT] != 0 && SlotBlock(disk, inodes[i], s) == 0
      modifies this
      ensures ok ==> Valid() && inodes == old(inodes) && SlotBlock(disk, inodes[i], s) != 0
      ensures ok ==> KeepsMeta(g, old(disk), disk) && KeepsOthers(g, old(disk), old(inodes), disk, inodes, i)
      ensures ok ==> KeepsData(old(disk), old(inodes)[i], disk, inodes[i])
      ensures ok ==> Read(disk, SlotBlock(disk, inodes[i], s)) == Zero()
      ensures ok ==> var b := SlotBlock(disk, inodes[i], s);
                     b < g.size && logged == old(logged) + {BBlock(g, b), b, inodes[i].addrs[INDIRECT]}
      ensures !ok ==> DiskFull(g, disk)
    {
      var b;
      ok, b := Balloc();
      if ok {
        EntryAllocated(g, old(disk), inodes, owner, b, i, s);
        var ind := inodes[i].addrs[INDIRECT];
        disk := disk[ind := SetWord(Read(disk, ind), s - 13, b)];
        logged := logged + {ind};
        owner := owner[b := Slot(i, s)];
      }
    }

    /** bmap's first step for a block past the direct ones. */
    method LoadIndirect(i: int) returns (ok: bool)
      requires Valid() && i in inodes
      modifies this
      ensures ok ==> Valid() && i in inodes && inodes[i].addrs[INDIRECT] != 0
      ensures ok ==> KeepsMeta(g, old(disk), disk) && KeepsOthers(g, old(disk), old(inodes), disk, inodes, i)
      ensures ok ==> KeepsData(old(disk), old(inodes)[i], disk, inodes[i])
      ensures old(inodes)[i].addrs[INDIRECT] != 0 ==>
                ok && disk == old(disk) && inodes == old(inodes) && logged == old(logged) && owner == old(owner)
      ensures ok ==> forall s :: INDIRECT < s < NSLOTS ==>
                SlotBlock(disk, inodes[i], s) == SlotBlock(old(disk), old(inodes)[i], s)
      ensures ok ==> LogsOnly(g, old(logged), logged, inodes[i].addrs[INDIRECT], inodes[i].addrs[INDIRECT])
      ensures !ok ==> DiskFull(g, disk)
    {
      ok := true;
      if inodes[i].addrs[INDIRECT] == 0 {
        ok := AllocAddr(i, INDIRECT);
        if ok {
          AllocLogs(g, old(logged), inodes[i].addrs[INDIRECT], inodes[i].addrs[INDIRECT]);
          forall s | INDIRECT < s < NSLOTS { ZeroWords(s - 13); }
        }
      }
    }

    /** bmap for a block past the direct ones. */
    method BmapIndirect(i: int, bn: int) returns (ok: bool, addr: int)
      requires Valid() && i in inodes && NDIRECT <= bn < MAXFILE
      modifies this
      ensures ok ==> Valid() && i in inodes && addr == SlotBlock(disk, inodes[i], SlotOf(bn)) && addr != 0
      ensures ok ==> KeepsMeta(g, old(disk), disk) && KeepsOthers(g, old(disk), old(inodes), disk, inodes, i)
      ensures ok ==> KeepsData(old(disk), old(inodes)[i], disk, inodes[i])
      ensures ok && SlotBlock(old(disk), old(inodes)[i], SlotOf(bn)) == 0 ==> Read(disk, addr) == Zero()
      ensures SlotBlock(old(disk), old(inodes)[i], SlotOf(bn)) != 0 ==>
                ok && disk == old(disk) && inodes == old(inodes) && logged == old(logged) && owner == old(owner)
      ensures ok ==> LogsOnly(g, old(logged), logged, inodes[i].addrs[INDIRECT], addr)
      ensures !ok ==> DiskFull(g, disk)
    {
      addr := 0;
      ghost var s := bn + 1;
      assert s == SlotOf(bn) && s - 13 == bn - NDIRECT;
      ok := LoadIndirect(i);
      if !ok { return; }
      addr := GetWord(Read(disk, inodes[i].addrs[INDIRECT]), bn - NDIRECT);
      if addr == 0 {
        ghost var d1, i1, l1 := disk, inodes, logged;
        ok := AllocEntry(i, bn + 1);
        if !ok { return; }
        KeepsTransitive(g, old(disk), old(inodes), d1, i1, disk, inodes, i);
        addr := GetWord(Read(disk, inodes[i].addrs[INDIRECT]), bn - NDIRECT);
        AllocLogs(g, l1, inodes[i].addrs[INDIRECT], addr);
      }
    }

    /** The block holding block bn of inode i, allocated and zeroed if there was none.
        `false` is balloc's panic. A block already there costs nothing. */
    method Bmap(i: int, bn: int) returns (ok: bool, addr: int)
      requires Valid() && i in inodes && 0 <= bn < MAXFILE
      modifies this
      ensures ok ==> Valid() && i in inodes && addr == SlotBlock(disk, inodes[i], SlotOf(bn)) && addr != 0
      ensures ok ==> KeepsMeta(g, old(disk), disk) && KeepsOthers(g, old(disk), old(inodes), disk, inodes, i)
      ensures ok ==> KeepsData(old(disk), old(inodes)[i], disk, inodes[i])
      ensures ok && SlotBlock(old(disk), old(inodes)[i], SlotOf(bn)) == 0 ==> Read(disk, addr) == Zero()
      ensures SlotBlock(old(disk), old(inodes)[i], SlotOf(bn)) != 0 ==>
                ok && disk == old(disk) && inodes == old(inodes) && logged == old(logged) && owner == old(owner)
      ensures ok ==> LogsOnly(g, old(logged), logged, inodes[i].addrs[INDIRECT], addr)
      ensures !ok ==> DiskFull(g, disk)
    {
      if bn >= NDIRECT {
        ok, addr := BmapIndirect(i, bn);
        return;
      }
      ok := true;
      if inodes[i].addrs[bn] == 0 {
        ok := AllocAddr(i, bn);
        if !ok { return false, 0; }
        AllocLogs(g, old(logged), inodes[i].addrs[INDIRECT], inodes[i].addrs[bn]);
      }
      addr := inodes[i].addrs[bn];
    }

    /** Copies the in-memory inode to disk and changes nothing else. */
    method Iupdate(i: int)
      requires Valid() && i in inodes
      modifies `disk, `logged
      ensures Valid() && disk == PutInode(g, old(disk), inodes[i], i) && logged == old(logged) + {IBlock(g, i)}
      ensures Synced(g, disk, inodes[i], i)
    {
      PutInodeKeepsOwn(g, disk, inodes, owner, inodes[i], i);
      PutInodeSynced(g, disk, inodes[i], i, inodes[i], i);
      disk := PutInode(g, disk, inodes[i], i);
      logged := logged + {IBlock(g, i)};
    }

    /** One round of readi's loop: the bytes from a to the end of its block, at most `left`. */
    method ReadChunk(i: int, a: int, left: int) returns (chunk: seq<Byte>)
      requires Valid() && i in inodes && 0 <= a && 0 < left && a + left <= inodes[i].size
      requires BlockFor(disk, inodes[i], a) != 0
      modifies this
      ensures disk == old(disk) && inodes == old(inodes) && logged == old(logged) && owner == old(owner)
      ensures 0 < |chunk| <= left && chunk == Contents(disk, inodes[i])[a..a + |chunk|]
    {
      var ok, addr := Bmap(i, a / BSIZE);
      var m := if left < BSIZE - a % BSIZE then left else BSIZE - a % BSIZE;
      chunk := Read(disk, addr)[a % BSIZE..a % BSIZE + m];
      ChunkContents(disk, inodes[i], a, m);
    }

    /** Reads the part of [off, off + n) below the size; `None` is the -1 return.
        With every byte below the size mapped, reading allocates nothing. */
    method Readi(i: int, off: int, n: int) returns (r: Option<seq<Byte>>)
      requires Valid() && i in inodes && Mapped(disk, inodes[i], inodes[i].size)
      requires 0 <= off < UINT && 0 <= n < UINT
      modifies this
      ensures disk == old(disk) && inodes == old(inodes) && logged == old(logged) && owner == old(owner)
      ensures r.None? <==> off > inodes[i].size || off + n >= UINT
      ensures r.Some? ==> var end := if off + n > inodes[i].size then inodes[i].size else off + n;
                          r.value == Contents(disk, inodes[i])[off..end]
    {
      if off > inodes[i].size || Wraps(off, n) {
        return None;
      }
      var left := if off + n > inodes[i].size then inodes[i].size - off else n;
      var dst: seq<Byte> := [];
      ghost var content := Contents(disk, inodes[i]);
      while |dst| < left
        invariant |dst| <= left && dst == content[off..off + |dst|]
        invariant disk == old(disk) && inodes == old(inodes) && logged == old(logged) && owner == old(owner)
      {
        assert BlockFor(disk, inodes[i], off + |dst|) != 0;
        var chunk := ReadChunk(i, off + |dst|, left - |dst|);
        dst := dst + chunk;
      }
      return Some(dst);
    }

    /** One round of writei's loop. */
    method WriteChunk(i: int, src: seq<Byte>, off: int, tot: int, ghost d0: Disk, ghost ip0: Inode)
        returns (ok: bool, m: int)
      requires Valid() && i in inodes && 0 <= tot < |src|
      requires Written(d0, ip0, disk, inodes[i], off, src, tot) && inodes[i].size == ip0.size
      modifies this
      ensures ok ==> Valid() && i in inodes && inodes[i] == old(inodes)[i].(addrs := inodes[i].addrs)
      ensures ok ==>
                m == (if |src| - tot < BSIZE - (off + tot) % BSIZE then |src| - tot else BSIZE - (off + tot) % BSIZE)
      ensures ok ==> KeepsMeta(g, old(disk), disk) && KeepsOthers(g, old(disk), old(inodes), disk, inodes, i)
      ensures ok ==> Written(d0, ip0, disk, inodes[i], off, src, tot + m)
      ensures BlockFor(old(disk), old(inodes)[i], off + tot) != 0 ==> ok && inodes == old(inodes)
      ensures ok && old(inodes)[i].addrs[INDIRECT] != 0 ==> inodes[i].addrs[INDIRECT] == old(inodes)[i].addrs[INDIRECT]
      ensures ok ==> LogsOnly(g, old(logged), logged, inodes[i].addrs[INDIRECT], BlockFor(disk, inodes[i], off + tot))
      ensures !ok ==> DiskFull(g, disk)
    {
      var a := off + tot;
      var addr;
      ok, addr := Bmap(i, a / BSIZE);
      m := if |src| - tot < BSIZE - a % BSIZE then |src| - tot else BSIZE - a % BSIZE;
      if ok {
        var x := Patch(Read(disk, addr), a % BSIZE, src[tot..tot + m]);
        assert owner[addr] == Slot(i, SlotOf(a / BSIZE));
        assert SlotBlock(old(disk), old(inodes)[i], INDIRECT) == old(inodes)[i].addrs[INDIRECT];
        WriteStep(g, d0, ip0, old(disk), old(inodes)[i], off, src, tot, disk, inodes, owner, i, m);
        DataWriteKeepsOwn(g, disk, inodes, owner, addr, x);
        DataWriteOthers(g, disk, inodes, owner, i, addr, x);
        ghost var d1 := disk;
        disk := disk[addr := x];
        logged := logged + {addr};
        OthersTransitive(g, old(disk), old(inodes), d1, inodes, disk, inodes, i);
      }
    }

    /** writei's loop: all of `src` goes in, and at most one data block is logged per round. */
    method WriteLoop(i: int, src: seq<Byte>, off: int) returns (ok: bool, ghost touched: set<int>)
      requires Valid() && i in inodes && Written(disk, inodes[i], disk, inodes[i], off, src, 0)
      modifies this
      ensures ok ==> Valid() && i in inodes && inodes[i] == old(inodes)[i].(addrs := inodes[i].addrs)
      ensures ok ==> KeepsMeta(g, old(disk), disk) && KeepsOthers(g, old(disk), old(inodes), disk, inodes, i)
      ensures ok ==> Written(old(disk), old(inodes)[i], disk, inodes[i], off, src, |src|)
      ensures off + |src| <= old(inodes)[i].size ==> ok && inodes == old(inodes)
      ensures ok ==> LogsWithin(g, old(logged), logged, inodes[i].addrs[INDIRECT], touched)
      ensures ok ==> |touched| * BSIZE < off % BSIZE + |src| + BSIZE
      ensures !ok ==> DiskFull(g, disk)
    {
      ghost var d0, ip0 := disk, inodes[i];
      var tot := 0;
      ok, touched := true, {};
      while tot < |src|
        invariant 0 <= tot <= |src| && Valid() && i in inodes
        invariant inodes[i] == ip0.(addrs := inodes[i].addrs)
        invariant KeepsMeta(g, d0, disk) && KeepsOthers(g, d0, old(inodes), disk, inodes, i)
        invariant Written(d0, ip0, disk, inodes[i], off, src, tot)
        invariant off + |src| <= ip0.size ==> inodes == old(inodes)
        invariant LogsWithin(g, old(logged), logged, inodes[i].addrs[INDIRECT], touched)
        invariant |touched| * BSIZE < off % BSIZE + tot + BSIZE
        invariant tot < |src| ==> |touched| * BSIZE <= off % BSIZE + tot
      {
        ghost var d1, i1, l1 := disk, inodes, logged;
        if off + |src| <= ip0.size { assert BlockFor(disk, inodes[i], off + tot) != 0; }
        var m;
        ok, m := WriteChunk(i, src, off, tot, d0, ip0);
        if !ok { return; }
        OthersTransitive(g, d0, old(inodes), d1, i1, disk, inodes, i);
        touched := touched + {BlockFor(disk, inodes[i], off + tot)};
        RoundArithmetic(off, |src|, tot, m, |touched|);
        tot := tot + m;
      }
    }

    lemma RoundArithmetic(off: int, n: int, tot: int, m: int, t: int)
      requires 0 <= off && 0 <= tot < n && 0 <= t && (t - 1) * BSIZE <= off % BSIZE + tot
      requires m == if n - tot < BSIZE - (off + tot) % BSIZE then n - tot else BSIZE - (off + tot) % BSIZE
      ensures t * BSIZE < off % BSIZE + (tot + m) + BSIZE
      ensures tot + m < n ==> t * BSIZE <= off % BSIZE + (tot + m)
    {
      if tot + m < n {
        assert (off + tot + m) % BSIZE == 0;
        var x := off % BSIZE + tot;
        assert (off + tot) % BSIZE == x % BSIZE;
        assert (x + m) % BSIZE == 0;
      }
    }

    /** The end of writei: a longer file gets its new size, in memory and on disk. */
    method Grow(i: int, size: int)
      requires Valid() && i in inodes && 0 <= size <= MAXFILE * BSIZE
      modifies `disk, `inodes, `logged
      ensures Valid() && inodes == old(inodes)[i := old(inodes)[i].(size := size)]
      ensures KeepsOthers(g, old(disk), old(inodes), disk, inodes, i)
      ensures Synced(g, disk, inodes[i], i) && KeepsSynced(g, old(disk), old(inodes), disk, inodes)
      ensures forall k :: 0 <= k < MAXFILE * BSIZE ==>
                BlockFor(disk, inodes[i], k) == BlockFor(old(disk), old(inodes)[i], k)
      ensures forall k :: 0 <= k < MAXFILE * BSIZE && BlockFor(disk, inodes[i], k) != 0 ==>
                ByteAt(disk, inodes[i], k) == ByteAt(old(disk), old(inodes)[i], k)
      ensures logged == old(logged) + {IBlock(g, i)}
    {
      ResizeKeepsOwn(g, disk, inodes, owner, i, size);
      inodes := inodes[i := inodes[i].(size := size)];
      PutInodeKeepsOwn(g, disk, inodes, owner, inodes[i], i);
      PutInodeOthers(g, disk, inodes, owner, i);
      forall j | j in old(inodes) { PutInodeSynced(g, disk, inodes[i], i, inodes[j], j); }
      Iupdate(i);
      OthersTransitive(g, old(disk), old(inodes), old(disk), inodes, disk, inodes, i);
    }

    /** writei on an inode that is not a device: exactly the bytes [off, off + n) are
        replaced, the file grows to the end of the write if that is past its size, no
        other file is disturbed, and on-disk inodes that matched still do, although
        iupdate runs only on growth. */
    method Writei(i: int, src: seq<Byte>, off: int) returns (r: WriteResult)
      requires Valid() && i in inodes && Mapped(disk, inodes[i], inodes[i].size)
      requires 0 <= off < UINT && |src| < UINT
      modifies this
      ensures r.Refused? <==> off > old(inodes)[i].size || off + |src| > MAXFILE * BSIZE
      ensures r.Refused? ==> disk == old(disk) && inodes == old(inodes) && logged == old(logged) && owner == old(owner)
      ensures r.OutOfBlocks? ==> DiskFull(g, disk)
      ensures r.Wrote? ==> r.n == |src| && Valid() && i in inodes
      ensures r.Wrote? ==> inodes[i].size == Max(old(inodes)[i].size, off + |src|)
      ensures r.Wrote? ==> Contents(disk, inodes[i]) == Splice(Contents(old(disk), old(inodes)[i]), off, src)
      ensures r.Wrote? ==> Mapped(disk, inodes[i], inodes[i].size)
      ensures r.Wrote? ==> KeepsOthers(g, old(disk), old(inodes), disk, inodes, i)
      ensures r.Wrote? ==> KeepsSynced(g, old(disk), old(inodes), disk, inodes)
      ensures r.Wrote? && g.size <= BPB ==> (|logged - old(logged)| - 4) * BSIZE < off % BSIZE + |src|
    {
      if off > inodes[i].size || Wraps(off, |src|) {
        return Refused;
      }
      if off + |src| > MAXFILE * BSIZE {
        return Refused;
      }
      r := WriteBytes(i, src, off);
    }

    /** writei's loop and what follows it. */
    method WriteBytes(i: int, src: seq<Byte>, off: int) returns (r: WriteResult)
      requires Valid() && i in inodes && Mapped(disk, inodes[i], inodes[i].size)
      requires 0 <= off <= inodes[i].size && off + |src| <= MAXFILE * BSIZE
      modifies this
      ensures !r.Refused? && (r.OutOfBlocks? ==> DiskFull(g, disk))
      ensures r.Wrote? ==> r.n == |src| && Valid() && i in inodes
      ensures r.Wrote? ==> inodes[i].size == Max(old(inodes)[i].size, off + |src|)
      ensures r.Wrote? ==> Contents(disk, inodes[i]) == Splice(Contents(old(disk), old(inodes)[i]), off, src)
      ensures r.Wrote? ==> Mapped(disk, inodes[i], inodes[i].size)
      ensures r.Wrote? ==> KeepsOthers(g, old(disk), old(inodes), disk, inodes, i)
      ensures r.Wrote? ==> KeepsSynced(g, old(disk), old(inodes), disk, inodes)
      ensures r.Wrote? && g.size <= BPB ==> (|logged - old(logged)| - 4) * BSIZE < off % BSIZE + |src|
    {
      ghost var d0, i0 := disk, inodes;
      var ok;
      ghost var touched;
      ok, touched := WriteLoop(i, src, off);
      if !ok {
        return OutOfBlocks;
      }
      ghost var d1, i1 := disk, inodes;
      if g.size <= BPB { LogBudget(g, old(logged), logged, inodes[i].addrs[INDIRECT], touched, IBlock(g, i)); }
      if |src| > 0 && off + |src| > inodes[i].size {
        Grow(i, off + |src|);
        OthersTransitive(g, d0, i0, d1, i1, disk, inodes, i);
        WrittenThenGrown(d0, i0[i], d1, i1[i], disk, inodes[i], off, src);
      }
      WrittenContents(d0, i0[i], disk, inodes[i], off, src);
      return Wrote(|src|);
    }

    lemma WrittenThenGrown(d0: Disk, ip0: Inode, d: Disk, ip: Inode, e: Disk, ip': Inode, off: int, src: seq<Byte>)
      requires Written(d0, ip0, d, ip, off, src, |src|)
      requires forall k :: 0 <= k < MAXFILE * BSIZE ==> BlockFor(e, ip', k) == BlockFor(d, ip, k)
      requires forall k :: 0 <= k < MAXFILE * BSIZE && BlockFor(e, ip', k) != 0 ==>
                ByteAt(e, ip', k) == ByteAt(d, ip, k)
      ensures Written(d0, ip0, e, ip', off, src, |src|)
    {
      forall k | 0 <= k < Max(ip0.size, off + |src|)
        ensures BlockFor(e, ip', k) != 0 && ByteAt(e, ip', k) == ByteAt(d, ip, k)
      {
        assert BlockFor(d, ip, k) != 0;
      }
    }

    /** itrunc's first loop: the direct blocks. */
    method TruncDirect(i: int) returns (ok: bool)
      requires Valid() && i in inodes
      modifies this
      ensures ok && Valid() && i in inodes && inodes[i] == old(inodes)[i].(addrs := inodes[i].addrs)
      ensures forall s :: 0 <= s < NDIRECT ==> inodes[i].addrs[s] == 0
      ensures inodes[i].addrs[INDIRECT] == old(inodes)[i].addrs[INDIRECT]
      ensures KeepsOthers(g, old(disk), old(inodes), disk, inodes, i) && KeepsMeta(g, old(disk), disk)
      ensures OnlyReleases(old(owner), owner, i)
    {
      ok := true;
      for s := 0 to NDIRECT
        invariant ok && Valid() && i in inodes && inodes[i] == old(inodes)[i].(addrs := inodes[i].addrs)
        invariant forall t :: 0 <= t < s ==> inodes[i].addrs[t] == 0
        invariant inodes[i].addrs[INDIRECT] == old(inodes)[i].addrs[INDIRECT]
        invariant KeepsOthers(g, old(disk), old(inodes), disk, inodes, i) && KeepsMeta(g, old(disk), disk)
        invariant OnlyReleases(old(owner), owner, i)
      {
        if inodes[i].addrs[s] != 0 {
          var b := inodes[i].addrs[s];
          ghost var d1, i1 := disk, inodes;
          FreeDirect(g, disk, inodes, owner, i, s);
          FreeOthers(g, disk, inodes, owner, i, 0, b, inodes[i := WithAddr(inodes[i], s, 0)]);
          ok := Bfree(b);
          inodes := inodes[i := WithAddr(inodes[i], s, 0)];
          owner := owner - {b};
          OthersTransitive(g, old(disk), old(inodes), d1, i1, disk, inodes, i);
        }
      }
    }

    /** itrunc's second loop: the entries of the indirect block, which stay written in it. */
    method TruncEntries(i: int) returns (ok: bool)
      requires Valid() && i in inodes && inodes[i].addrs[INDIRECT] != 0
      modifies `disk, `logged, `owner
      ensures ok && OwnExcept(g, disk, inodes, owner, i, NINDIRECT)
      ensures KeepsOthers(g, old(disk), old(inodes), disk, inodes, i) && KeepsMeta(g, old(disk), disk)
      ensures OnlyReleases(old(owner), owner, i)
    {
      ok := true;
      var ind := inodes[i].addrs[INDIRECT];
      var bp := Read(disk, ind);
      assert SlotBlock(disk, inodes[i], INDIRECT) == ind;
      for j := 0 to NINDIRECT
        invariant ok && OwnExcept(g, disk, inodes, owner, i, j) && Read(disk, ind) == bp
        invariant KeepsOthers(g, old(disk), old(inodes), disk, inodes, i) && KeepsMeta(g, old(disk), disk)
        invariant OnlyReleases(old(owner), owner, i)
      {
        var b := GetWord(bp, j);
        assert b == SlotBlock(disk, inodes[i], 13 + j);
        FreeEntry(g, disk, inodes, owner, i, j);
        if b != 0 {
          ghost var d1 := disk;
          FreeOthers(g, disk, inodes, owner, i, j, b, inodes);
          assert g.datastart <= ind by { assert SlotBlock(disk, inodes[i], INDIRECT) == ind; }
          FreeFrame(g, disk, b);
          ok := Bfree(b);
          owner := owner - {b};
          OthersTransitive(g, old(disk), old(inodes), d1, inodes, disk, inodes, i);
        }
      }
    }

    /** itrunc: exactly this inode's blocks become free, and bfree's panic is not reached. */
    method Itrunc(i: int) returns (ok: bool)
      requires Valid() && i in inodes
      modifies this
      ensures ok && Valid() && i in inodes
      ensures inodes[i] == old(inodes)[i].(size := 0, addrs := NoAddrs())
      ensures forall c :: c in owner <==> c in old(owner) && old(owner)[c].inum != i
      ensures forall c :: c in owner ==> owner[c] == old(owner)[c]
      ensures KeepsOthers(g, old(disk), old(inodes), disk, inodes, i)
      ensures Synced(g, disk, inodes[i], i) && OthersSynced(g, old(disk), disk, inodes, i)
    {
      ok := TruncBlocks(i);
      ghost var d1, i1 := disk, inodes;
      Grow(i, 0);
      OthersTransitive(g, old(disk), old(inodes), d1, i1, disk, inodes, i);
      MetaSynced(g, old(disk), d1, i1, disk, inodes, i);
    }

    /** itrunc's two loops. */
    method TruncBlocks(i: int) returns (ok: bool)
      requires Valid() && i in inodes
      modifies this
      ensures ok && Valid() && i in inodes && inodes[i] == old(inodes)[i].(addrs := NoAddrs())
      ensures forall c :: c in owner <==> c in old(owner) && old(owner)[c].inum != i
      ensures forall c :: c in owner ==> owner[c] == old(owner)[c]
      ensures KeepsOthers(g, old(disk), old(inodes), disk, inodes, i) && KeepsMeta(g, old(disk), disk)
    {
      ok := TruncDirect(i);
      if inodes[i].addrs[INDIRECT] != 0 {
        ghost var d1, i1 := disk, inodes;
        ok := TruncIndirect(i);
        OthersTransitive(g, old(disk), old(inodes), d1, i1, disk, inodes, i);
      }
      assert inodes[i].addrs == NoAddrs();
      NoSlotsNoBlocks(disk, inodes, owner, i);
    }

    method TruncIndirect(i: int) returns (ok: bool)
      requires Valid() && i in inodes && inodes[i].addrs[INDIRECT] != 0
      modifies this
      ensures ok && Valid() && inodes == old(inodes)[i := WithAddr(old(inodes)[i], INDIRECT, 0)]
      ensures KeepsOthers(g, old(disk), old(inodes), disk, inodes, i) && KeepsMeta(g, old(disk), disk)
      ensures OnlyReleases(old(owner), owner, i)
    {
      ok := TruncEntries(i);
      var b := inodes[i].addrs[INDIRECT];
      ghost var d1 := disk;
      FreeIndirect(g, disk, inodes, owner, i);
      FreeOthers(g, disk, inodes, owner, i, NINDIRECT, b, inodes[i := WithAddr(inodes[i], INDIRECT, 0)]);
      ok := Bfree(b);
      inodes := inodes[i := WithAddr(inodes[i], INDIRECT, 0)];
      owner := owner - {b};
      OthersTransitive(g, old(disk), old(inodes), d1, old(inodes), disk, inodes, i);
    }

    lemma NoSlotsNoBlocks(d: Disk, inodes: Inodes, owner: Owner, i: int)
      requires OwnersHold(g, d, inodes, owner) && GeoOk(g) && i in inodes && forall s :: 0 <= s <= INDIRECT ==>
                inodes[i].addrs[s] == 0
      ensures forall c :: c in owner ==> owner[c].inum != i
    {
      forall c | c in owner
        ensures owner[c].inum != i
      {
        assert SlotBlock(d, inodes[owner[c].inum], owner[c].s) == c;
      }
    }

    /** One chunk of filewrite, begin_op to end_op: with a one-block free map it logs at
        most 7 blocks, within MAXOPBLOCKS. */
    method WriteOp(i: int, src: seq<Byte>, off: int) returns (w: WriteResult)
      requires Valid() && i in inodes && Mapped(disk, inodes[i], inodes[i].size)
      requires 0 <= off && off + |src| < UINT && 0 < |src| <= FILEWRITE_MAX
      modifies this
      ensures w.Refused? ==> disk == old(disk) && inodes == old(inodes) && owner == old(owner)
      ensures w.Refused? ==> off > inodes[i].size || off + |src| > MAXFILE * BSIZE
      ensures w.OutOfBlocks? ==> DiskFull(g, disk)
      ensures w.Wrote? ==> w.n == |src| && Valid() && i in inodes && Mapped(disk, inodes[i], inodes[i].size)
      ensures w.Wrote? ==>
                off <= old(inodes)[i].size
                && Contents(disk, inodes[i]) == Splice(Contents(old(disk), old(inodes)[i]), off, src)
      ensures w.Wrote? ==> KeepsOthers(g, old(disk), old(inodes), disk, inodes, i)
      ensures w.Wrote? ==> KeepsSynced(g, old(disk), old(inodes), disk, inodes)
      ensures w.Wrote? && g.size <= BPB ==> |logged| <= 7
    {
      logged := {};
      w := Writei(i, src, off);
    }

    /** filewrite on an inode file, as a sequence of operations. The bytes written are a
        prefix of `addr`, in order and in place; OutOfBlocks is balloc's panic. The
        returned count is all of them or -1. `after` has the disk and the inode after each
        operation; as an operation is in the log wholly or not at all, one of them is what a
        crash leaves. */
    method Filewrite(i: int, addr: seq<Byte>, off0: int)
      returns (panicked: bool, r: int, off: int, ghost after: seq<(Disk, Inode)>)
      requires Valid() && i in inodes && Mapped(disk, inodes[i], inodes[i].size)
      requires 0 <= off0 && off0 + |addr| < UINT
      modifies this
      ensures panicked ==> DiskFull(g, disk)
      ensures !panicked ==> Valid() && i in inodes && off0 <= off <= off0 + |addr|
      ensures !panicked ==> r == if off == off0 + |addr| then |addr| else -1
      ensures !panicked && off < off0 + |addr| ==> off > inodes[i].size || off + FILEWRITE_MAX > MAXFILE * BSIZE
      ensures !panicked ==>
                Appended(Contents(old(disk), old(inodes)[i]), off0, addr[..off - off0], Contents(disk, inodes[i]))
      ensures !panicked ==> KeepsOthers(g, old(disk), old(inodes), disk, inodes, i)
      ensures WholeChunks(g, i, Contents(old(disk), old(inodes)[i]), off0, addr, after)
      ensures Synced(g, old(disk), old(inodes)[i], i) ==> EachSynced(g, i, after)
      ensures |after| > 0 && after[0] == (old(disk), old(inodes)[i])
      ensures !panicked ==> off == off0 + Chunks(addr, |after| - 1)
    {
      after := [(disk, inodes[i])];
      ChunksStart(g, i, disk, inodes, off0, addr);
      off := off0;
      var done := 0;
      while done < |addr|
        invariant 0 <= done <= |addr| && off == off0 + done
        invariant Valid() && i in inodes && Mapped(disk, inodes[i], inodes[i].size)
        invariant ChunksSoFar(g, i, old(disk), old(inodes), off0, addr, after, disk, inodes, done)
      {
        var w;
        w, after := WriteNext(i, addr, off0, done, old(disk), old(inodes), after);
        if !w.Wrote? {
          if w.Refused? { ChunksNow(g, i, old(disk), old(inodes), off0, addr, after, disk, inodes, done); }
          return w.OutOfBlocks?, -1, off, after;
        }
        off := off + w.n;
        done := done + w.n;
      }
      ChunksNow(g, i, old(disk), old(inodes), off0, addr, after, disk, inodes, done);
      panicked, r := false, |addr|;
    }

    /** One operation of filewrite. */
    method WriteNext(i: int, addr: seq<Byte>, off0: int, done: int, ghost d0: Disk, ghost i0: Inodes,
                     ghost before: seq<(Disk, Inode)>)
      returns (w: WriteResult, ghost after: seq<(Disk, Inode)>)
      requires Valid() && i in inodes && Mapped(disk, inodes[i], inodes[i].size)
      requires 0 <= off0 && off0 + |addr| < UINT && 0 <= done < |addr|
      requires ChunksSoFar(g, i, d0, i0, off0, addr, before, disk, inodes, done)
      modifies this
      ensures w.Refused? ==> disk == old(disk) && inodes == old(inodes) && owner == old(owner)
      ensures w.Refused? ==> off0 + done > inodes[i].size || off0 + done + FILEWRITE_MAX > MAXFILE * BSIZE
      ensures w.OutOfBlocks? ==> DiskFull(g, disk)
      ensures !w.Wrote? ==> after == before
      ensures w.Wrote? ==> 0 < w.n && done + w.n <= |addr|
      ensures w.Wrote? ==> Valid() && i in inodes && Mapped(disk, inodes[i], inodes[i].size)
      ensures w.Wrote? ==> ChunksSoFar(g, i, d0, i0, off0, addr, after, disk, inodes, done + w.n)
    {
      var n1 := if |addr| - done > FILEWRITE_MAX then FILEWRITE_MAX else |addr| - done;
      ghost var d1, i1 := disk, inodes;
      after := before;
      w := WriteOp(i, addr[done..done + n1], off0 + done);
      if w.Wrote? {
        ChunkAdded(g, i, d0, i0, off0, addr, before, d1, i1, disk, inodes, done, n1);
        after := before + [(disk, inodes[i])];
      }
    }
  }
}
