/** bio.c: buffers on a doubly linked ring, relabelled in place and kept in
    release order. Each method is one critical section, so any interleaving of
    processes is a sequence of these calls. */
module BufferCache {
  import opened Storage

  datatype Key = Key(dev: int, blockno: int)

  /** A buffer's fields other than its links. */
  datatype Slot = Slot(
    key: Key,
    valid: bool,      // B_VALID
    dirty: bool,      // B_DIRTY
    refcnt: int,
    locked: bool,     // the sleep lock
    data: Block)

  class Buf {
    var s: Slot
    var prev: Buf
    var next: Buf

    constructor ()
      ensures s == Slot(Key(0, 0), false, false, 0, false, ZeroBlock())
    {
      s := Slot(Key(0, 0), false, false, 0, false, ZeroBlock());
      prev := this;
      next := this;
    }
  }

  // ---- the ring ----

  ghost predicate DistinctBufs(r: seq<Buf>) {
    forall i, j :: 0 <= i < j < |r| ==> r[i] != r[j]
  }

  /** Following `next` from `head` visits exactly `r` and returns; `prev` goes back the same way. */
  ghost predicate Linked(head: Buf, r: seq<Buf>)
    reads head`prev, head`next, r`prev, r`next
  {
    && DistinctBufs(r) && head !in r
    && (forall i {:trigger r[i].next} :: 0 <= i < |r| - 1 ==> r[i].next == r[i + 1])
    && (forall i {:trigger r[i].prev} :: 1 <= i < |r| ==> r[i].prev == r[i - 1])
    && (if r == [] then head.next == head && head.prev == head
        else head.next == r[0] && r[0].prev == head && head.prev == r[|r| - 1] && r[|r| - 1].next == head)
  }

  ghost function Without(r: seq<Buf>, k: int): seq<Buf>
    requires 0 <= k < |r|
  {
    r[..k] + r[k + 1..]
  }

  ghost function Elems(r: seq<Buf>): set<Buf> {
    set b | b in r
  }

  /** brelse's splice, first half: b leaves the ring. */
  method Unlink(head: Buf, b: Buf, ghost r: seq<Buf>, ghost k: int)
    requires Linked(head, r) && 0 <= k < |r| && r[k] == b
    modifies head`prev, head`next, r`prev, r`next
    ensures Linked(head, Without(r, k))
  {
    b.next.prev := b.prev;
    b.prev.next := b.next;
  }

  /** brelse's splice, second half, and binit's insertion: b becomes most recent. */
  method PushFront(head: Buf, b: Buf, ghost r: seq<Buf>)
    requires Linked(head, r) && b !in r && b != head
    modifies head`prev, head`next, r`prev, r`next, b`prev, b`next
    ensures Linked(head, [b] + r)
  {
    b.next := head.next;
    b.prev := head;
    head.next.prev := b;
    head.next := b;
  }

  method Splice(head: Buf, b: Buf, ghost r: seq<Buf>, ghost k: int)
    requires Linked(head, r) && 0 <= k < |r| && r[k] == b
    modifies head`prev, head`next, r`prev, r`next
    ensures Linked(head, [b] + Without(r, k))
  {
    Unlink(head, b, r, k);
    PushFront(head, b, Without(r, k));
  }

  /** binit's loop. */
  method BuildRing(head: Buf, bufs: seq<Buf>) returns (ghost ring: seq<Buf>)
    requires DistinctBufs(bufs) && head !in bufs
    modifies head`prev, head`next, bufs`prev, bufs`next
    ensures Linked(head, ring) && |ring| == |bufs|
    ensures forall j :: 0 <= j < |bufs| ==> ring[j] == bufs[|bufs| - 1 - j]
  {
    head.prev := head;
    head.next := head;
    ring := [];
    for i := 0 to |bufs|
      invariant Linked(head, ring) && |ring| == i
      invariant forall j :: 0 <= j < i ==> ring[j] == bufs[i - 1 - j]
    {
      PushFront(head, bufs[i], ring);
      ring := [bufs[i]] + ring;
    }
  }

  /** The time of the last release of b, or -1. */
  ghost function LastRelease(h: seq<Buf>, b: Buf): int {
    if h == [] then -1
    else if h[|h| - 1] == b then |h| - 1
    else LastRelease(h[..|h| - 1], b)
  }

  lemma LastReleaseAppend(h: seq<Buf>, b: Buf, c: Buf)
    ensures LastRelease(h + [b], c) == if c == b then |h| else LastRelease(h, c)
    ensures LastRelease(h, c) < |h|
  {
    assert (h + [b])[..|h|] == h;
    LastReleaseBound(h, c);
  }

  lemma LastReleaseBound(h: seq<Buf>, c: Buf)
    ensures -1 <= LastRelease(h, c) < |h|
  {
  }

  lemma LastReleaseDistinct(h: seq<Buf>, k: int)
    requires DistinctBufs(h) && 0 <= k < |h|
    ensures LastRelease(h, h[k]) == k
  {
    if k < |h| - 1 { LastReleaseDistinct(h[..|h| - 1], k); }
  }

  /** `r` is sorted by the time of the last release, latest first. */
  ghost predicate LatestFirst(h: seq<Buf>, r: seq<Buf>) {
    && (forall i :: 0 <= i < |r| ==> LastRelease(h, r[i]) >= 0)
    && (forall i, j :: 0 <= i < j < |r| ==> LastRelease(h, r[i]) > LastRelease(h, r[j]))
  }

  /** Releasing the k-th buffer and moving it to the front keeps the order. */
  lemma MoveKeepsOrder(h: seq<Buf>, r: seq<Buf>, k: int)
    requires DistinctBufs(r) && LatestFirst(h, r) && 0 <= k < |r|
    ensures LatestFirst(h + [r[k]], [r[k]] + Without(r, k))
    ensures Elems([r[k]] + Without(r, k)) == Elems(r)
    ensures r[k] !in Without(r, k)
  {
    forall c { LastReleaseAppend(h, r[k], c); }
    assert r == r[..k] + [r[k]] + r[k + 1..];
  }

  function Get(disk: map<Key, Block>, k: Key): Block {
    if k in disk then disk[k] else ZeroBlock()
  }

  lemma Covered<T>(a: set<T>, b: set<T>, c: set<T>)
    requires a <= b + c
    ensures |a| <= |b| + |c|
  {
    assert b + c == a + (b + c - a);
  }

  class Cache {
    const head: Buf
    ghost const bufs: set<Buf>          // bcache.buf
    var disk: map<Key, Block>
    ghost var ring: seq<Buf>            // head.next first
    ghost var releases: seq<Buf>        // every release by a last user, oldest first; binit counts as one each
    ghost var at: map<Key, Buf>         // the buffer labelled with each block
    ghost var refs: multiset<Buf>       // one occurrence per pointer handed out and not yet released

    ghost predicate Ring()
      reads `ring, head`prev, head`next, ring`prev, ring`next
    {
      && Linked(head, ring)
      && bufs == Elems(ring)
    }

    /** `at` locates every labelled buffer, so no two carry the same block of a
        device other than 0. */
    ghost predicate Labels()
      reads `at, bufs`s
    {
      && (forall b :: b in bufs && b.s.key.dev != 0 ==> b.s.key in at && at[b.s.key] == b)
      && (forall k :: k in at ==> k.dev != 0 && at[k] in bufs && at[k].s.key == k)
    }

    ghost predicate Counted()
      reads `refs, bufs`s
    {
      forall b :: b in bufs ==> b.s.refcnt == refs[b] && (b.s.locked ==> b.s.refcnt > 0)
    }

    /** A buffer nobody is changing holds the disk's contents unless it is dirty. */
    ghost predicate Coherent()
      reads `disk, bufs`s
    {
      forall b :: b in bufs ==>
        && (b.s.dirty ==> b.s.valid)
        && (b.s.valid && !b.s.dirty && !b.s.locked ==> b.s.data == Get(disk, b.s.key))
    }

    ghost predicate Order()
      reads `ring, `releases, head`prev, head`next, ring`prev, ring`next
    {
      Ring() && LatestFirst(releases, ring)
    }

    /** What the buffers hold; the ring's links and order are no part of it. */
    ghost predicate Stored()
      reads `disk, `at, `refs, bufs`s
    {
      Labels() && Counted() && Coherent()
    }

    ghost predicate Valid()
      reads this, head, ring, bufs
    {
      Order() && Stored()
    }

    /** What a reader of block k is to see: the disk overlaid with the writes that
        only the cache holds so far. */
    ghost function View(k: Key): Block
      requires Labels()
      reads `disk, `at, bufs`s
    {
      if k in at && at[k].s.dirty then at[k].s.data else Get(disk, k)
    }

    ghost predicate Usable(b: Buf)
      reads b`s
    {
      b.s.refcnt == 0 && !b.s.dirty
    }

    /** binit: the last buffer inserted ends up first. */
    constructor (head: Buf, pool: seq<Buf>, disk: map<Key, Block>)
      requires DistinctBufs(pool) && head !in pool
      requires forall b :: b in pool ==> b.s.key.dev == 0 && !b.s.valid && !b.s.dirty && b.s.refcnt == 0 && !b.s.locked
      modifies head`prev, head`next, pool`prev, pool`next
      ensures Valid() && this.head == head && bufs == (set b | b in pool) && this.disk == disk && refs == multiset{}
      ensures |ring| == |pool| && forall j :: 0 <= j < |pool| ==> ring[j] == pool[|pool| - 1 - j]
    {
      this.head := head;
      bufs := set b | b in pool;
      this.disk := disk;
      refs := multiset{};
      at := map[];
      new;
      ring := BuildRing(head, pool);
      releases := pool;
      forall k | 0 <= k < |pool| { LastReleaseDistinct(pool, k); }
      forall b | b in pool
        ensures b in ring
      {
        var i :| 0 <= i < |pool| && pool[i] == b;
        assert ring[|pool| - 1 - i] == b;
      }
    }

    ghost predicate Cached(k: Key)
      reads bufs`s
    {
      exists c :: c in bufs && c.s.key == k
    }

    ghost predicate AllBusy()
      reads bufs`s
    {
      forall c :: c in bufs ==> !Usable(c)
    }

    /** Usable, and nothing released longer ago is. */
    ghost predicate Victim(b: Buf)
      reads `ring, bufs`s
      requires Elems(ring) <= bufs
    {
      b in bufs && Usable(b) && forall i, j :: 0 <= i < j < |ring| && ring[i] == b ==> !Usable(ring[j])
    }

    /** bget's first loop, from the most recently released end. */
    method FindCached(dev: int, blockno: int) returns (b: Buf?)
      requires Order()
      ensures b != null <==> Cached(Key(dev, blockno))
      ensures b != null ==> b in bufs && b.s.key == Key(dev, blockno)
    {
      b := head.next;
      ghost var k := 0;
      while b != head
        invariant 0 <= k <= |ring|
        invariant b == if k < |ring| then ring[k] else head
        invariant forall j :: 0 <= j < k ==> ring[j].s.key != Key(dev, blockno)
        decreases |ring| - k
      {
        assert b == ring[k] && b in bufs;
        if b.s.key.dev == dev && b.s.key.blockno == blockno {
          return;
        }
        b := b.next;
        k := k + 1;
      }
      b := null;
    }

    /** bget's second loop, from the other end: the least recently released buffer
        that nobody uses and no transaction pins. */
    method FindVictim() returns (b: Buf?)
      requires Order()
      ensures b == null <==> AllBusy()
      ensures b != null ==> Victim(b)
    {
      b := head.prev;
      ghost var k := |ring|;
      while b != head
        invariant 0 <= k <= |ring|
        invariant b == if k > 0 then ring[k - 1] else head
        invariant forall j :: k <= j < |ring| ==> !Usable(ring[j])
        decreases k
      {
        assert b == ring[k - 1] && b in bufs;
        if b.s.refcnt == 0 && !b.s.dirty {
          return;
        }
        b := b.prev;
        k := k - 1;
      }
      b := null;
    }

    /** A second user of a cached block. */
    method Share(b: Buf)
      requires Stored() && b in bufs
      modifies `refs, b`s
      ensures Stored() && refs == old(refs) + multiset{b}
      ensures b.s == old(b.s).(refcnt := old(b.s.refcnt) + 1)
      ensures forall k :: View(k) == old(View(k))
    {
      b.s := b.s.(refcnt := b.s.refcnt + 1);
      refs := refs + multiset{b};
    }

    /** Relabelling a buffer that holds nothing the disk lacks. */
    method Recycle(b: Buf, dev: int, blockno: int)
      requires Stored() && b in bufs && Usable(b) && !Cached(Key(dev, blockno))
      modifies `refs, `at, b`s
      ensures Stored() && refs == old(refs) + multiset{b}
      ensures b.s == old(b.s).(key := Key(dev, blockno), valid := false, refcnt := 1)
      ensures forall k :: View(k) == old(View(k))
    {
      var k := Key(dev, blockno);
      at := if dev != 0 then (at - {b.s.key})[k := b] else at - {b.s.key};
      b.s := b.s.(key := k, valid := false, refcnt := 1);
      refs := refs + multiset{b};
      assert Labels();
    }

    /** Fewer buffers pinned or held than there are: bget does not panic. */
    lemma RoomLeft(pinned: set<Buf>, held: set<Buf>)
      requires forall b :: b in bufs && b.s.dirty ==> b in pinned
      requires forall b :: b in bufs && b.s.refcnt > 0 ==> b in held
      requires Counted() && |pinned| + |held| < |bufs|
      ensures !AllBusy()
    {
      if AllBusy() {
        Covered(bufs, pinned, held);
      }
    }

    /** bget's critical section: the cached buffer if there is one, and otherwise the
        least recently released buffer that is neither in use nor pinned. Null is
        panic("bget: no buffers"). What readers see of any block does not change. */
    method Bget(dev: int, blockno: int) returns (b: Buf?)
      requires Valid()
      modifies `refs, `at, bufs`s
      ensures Stored()  // Valid() again: the ring is outside the frame
      ensures b == null <==> !old(Cached(Key(dev, blockno))) && old(AllBusy())
      ensures b == null ==> refs == old(refs)
      ensures b != null ==> b in bufs && b.s.key == Key(dev, blockno) && refs == old(refs) + multiset{b}
      ensures forall c :: c in bufs && c != b ==> c.s == old(c.s)
      ensures b != null && old(Cached(Key(dev, blockno))) ==> b.s == old(b.s).(refcnt := old(b.s.refcnt) + 1)
      ensures b != null && !old(Cached(Key(dev, blockno))) ==>
                old(Victim(b)) && b.s == old(b.s).(key := Key(dev, blockno), valid := false, refcnt := 1)
      ensures forall k :: View(k) == old(View(k))
    {
      b := FindCached(dev, blockno);
      if b != null {
        Share(b);
        return;
      }
      b := FindVictim();
      if b != null {
        Recycle(b, dev, blockno);
      }
    }

    /** The rest of bread, once the sleep lock is free: lock, and read if needed.
        The holder then has the current contents of the block. */
    method Lock(b: Buf)
      requires Stored() && b in bufs && b in refs && !b.s.locked && b.s.key.dev != 0
      modifies b`s
      ensures Stored() && b.s.locked && b.s.valid
      ensures b.s.data == View(b.s.key)
      ensures old(b.s.valid) ==> b.s.data == old(b.s.data)
      ensures forall k :: View(k) == old(View(k))
    {
      b.s := b.s.(locked := true, valid := true, data := if b.s.valid then b.s.data else Get(disk, b.s.key));
    }

    /** bwrite: the disk takes the buffer's contents and the buffer is clean. */
    method Bwrite(b: Buf)
      requires Stored() && b in bufs && b.s.locked && b.s.key.dev != 0
      modifies this`disk, b`s
      ensures Stored() && b.s.valid && !b.s.dirty
      ensures disk == old(disk)[b.s.key := b.s.data]
      ensures forall k :: View(k) == if k == b.s.key then b.s.data else old(View(k))
    {
      disk := disk[b.s.key := b.s.data];
      b.s := b.s.(dirty := false, valid := true);
    }

    /** log_write's B_DIRTY: the changed contents become what every reader sees. */
    method Pin(b: Buf)
      requires Stored() && b in bufs && b.s.locked && b.s.valid && b.s.key.dev != 0
      modifies b`s
      ensures Stored() && b.s.dirty
      ensures forall k :: View(k) == if k == b.s.key then b.s.data else old(View(k))
    {
      b.s := b.s.(dirty := true);
    }

    /** The last user out: the buffer becomes the most recently released one. */
    method MoveToFront(b: Buf) returns (ghost k: int)
      requires Order() && b in bufs
      modifies `ring, `releases, head`prev, head`next, ring`prev, ring`next
      ensures Order() && releases == old(releases) + [b]
      ensures 0 <= k < |old(ring)| && old(ring)[k] == b && ring == [b] + Without(old(ring), k)
    {
      k :| 0 <= k < |ring| && ring[k] == b;
      MoveKeepsOrder(releases, ring, k);
      ghost var moved := [b] + Without(ring, k);
      Splice(head, b, ring, k);
      SetRing(moved, b);
    }

    ghost method SetRing(moved: seq<Buf>, b: Buf)
      requires Linked(head, moved) && bufs == Elems(moved) && LatestFirst(releases + [b], moved)
      modifies `ring, `releases
      ensures Order() && releases == old(releases) + [b] && ring == moved
    {
      ring := moved;
      releases := releases + [b];
    }

    /** That shows in the order of the ring only. */
    method Retire(b: Buf) returns (ghost k: int)
      requires Valid() && b in bufs
      modifies `ring, `releases, head`prev, head`next, ring`prev, ring`next
      ensures Valid() && releases == old(releases) + [b]
      ensures 0 <= k < |old(ring)| && old(ring)[k] == b && ring == [b] + Without(old(ring), k)
      ensures forall k :: View(k) == old(View(k))
    {
      k := MoveToFront(b);
      assert Stored() == old(Stored());
    }

    /** The first half of brelse: unlock and give up the reference. */
    method Drop(b: Buf)
      requires Stored() && b in bufs && b.s.locked && b in refs
      requires b.s.valid && !b.s.dirty ==> b.s.data == Get(disk, b.s.key)
      modifies `refs, b`s
      ensures Stored() && refs == old(refs) - multiset{b}
      ensures b.s == old(b.s).(locked := false, refcnt := old(b.s.refcnt) - 1)
      ensures forall k :: View(k) == old(View(k))
    {
      b.s := b.s.(locked := false, refcnt := b.s.refcnt - 1);
      refs := refs - multiset{b};
    }

    /** brelse by a holder who wrote back or logged what it changed. The last user out
        moves the buffer to the front of the ring; nothing else moves. */
    method Brelse(b: Buf) returns (ghost k: int)
      requires Valid() && b in bufs && b.s.locked && b in refs
      requires b.s.valid && !b.s.dirty ==> b.s.data == Get(disk, b.s.key)
      modifies `refs, `ring, `releases, b`s, head`prev, head`next, ring`prev, ring`next
      ensures Valid() && refs == old(refs) - multiset{b}
      ensures b.s == old(b.s).(locked := false, refcnt := old(b.s.refcnt) - 1)
      ensures b.s.refcnt > 0 ==> ring == old(ring) && releases == old(releases)
      ensures b.s.refcnt == 0 ==> releases == old(releases) + [b]
      ensures b.s.refcnt == 0 ==> 0 <= k < |old(ring)| && old(ring)[k] == b && ring == [b] + Without(old(ring), k)
      ensures forall k :: View(k) == old(View(k))
    {
      Drop(b);
      assert Order() == old(Order());
      k := 0;
      if b.s.refcnt == 0 {
        k := Retire(b);
      }
    }
  }
}
