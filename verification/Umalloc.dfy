/** user/umalloc.c: the Kernighan and Ritchie allocator (section 8.7 of The C Programming
    Language, second edition). Addresses count headers, eight bytes each. */
module Allocator {
  const WORD32 := 0x1_0000_0000
  const NULL := 0

  // ---- the free ring ----

  /** n follows h: the next higher of F, or base after the highest. */
  ghost predicate Follows(F: set<int>, h: int, n: int, base: int) {
    n in F && if n == base then forall g :: g in F ==> g <= h else h < n && forall g :: g in F ==> g <= h || n <= g
  }

  ghost predicate Linked(F: set<int>, ptr: map<int, int>, h: int, base: int) {
    h in ptr && Follows(F, h, ptr[h], base)
  }

  /** ptr links the headers in F into one circle in address order, base the lowest. */
  ghost predicate Ring(F: set<int>, ptr: map<int, int>, base: int) {
    && base in F
    && (forall h :: h in F ==> base <= h)
    && (forall h {:trigger Linked(F, ptr, h, base)} :: h in F ==> Linked(F, ptr, h, base))
  }

  /** p is where b belongs: below it, with nothing of F in between. */
  ghost predicate Before(F: set<int>, p: int, b: int) {
    p in F && p < b && forall g :: g in F && g < b ==> g <= p
  }

  lemma FollowsInserted(F: set<int>, base: int, p: int, b: int, n: int)
    requires base in F && Before(F, p, b) && Follows(F, p, n, base) && b !in F
    ensures Follows(F + {b}, p, b, base) && Follows(F + {b}, b, n, base)
  {
  }

  lemma FollowsStill(F: set<int>, base: int, p: int, b: int, h: int, n: int)
    requires base in F && Before(F, p, b) && h in F && h != p && Follows(F, h, n, base)
    ensures Follows(F + {b}, h, n, base)
  {
    if h < p {
      assert n <= p;
    }
  }

  lemma RingInsert(F: set<int>, ptr: map<int, int>, base: int, p: int, b: int)
    requires Ring(F, ptr, base) && Before(F, p, b) && b !in F
    ensures p in ptr && Ring(F + {b}, ptr[b := ptr[p]][p := b], base)
  {
    assert Linked(F, ptr, p, base);
    FollowsInserted(F, base, p, b, ptr[p]);
    var r := ptr[b := ptr[p]][p := b];
    forall h | h in F + {b}
      ensures Linked(F + {b}, r, h, base)
    {
      if h != p && h != b {
        assert Linked(F, ptr, h, base);
        FollowsStill(F, base, p, b, h, ptr[h]);
      }
    }
  }

  lemma FollowsSkips(F: set<int>, base: int, p: int, x: int, n: int)
    requires base in F && p in F && x != base && Follows(F, p, x, base) && Follows(F, x, n, base)
    ensures Follows(F - {x}, p, n, base)
  {
  }

  lemma FollowsWithout(F: set<int>, base: int, p: int, x: int, h: int, n: int)
    requires base in F && p in F && x != base && Follows(F, p, x, base) && h in F && h != p && Follows(F, h, n, base)
    ensures n != x && Follows(F - {x}, h, n, base)
  {
    assert h < p || p < h;
  }

  lemma RingRemove(F: set<int>, ptr: map<int, int>, base: int, p: int, x: int)
    requires Ring(F, ptr, base) && p in F && p in ptr && ptr[p] == x != base
    ensures x in ptr && Ring(F - {x}, ptr[p := ptr[x]], base)
  {
    assert Linked(F, ptr, p, base) && Linked(F, ptr, x, base);
    FollowsSkips(F, base, p, x, ptr[x]);
    var r := ptr[p := ptr[x]];
    forall h | h in F - {x}
      ensures Linked(F - {x}, r, h, base)
    {
      if h != p {
        assert Linked(F, ptr, h, base);
        FollowsWithout(F, base, p, x, h, ptr[h]);
      }
    }
  }

  // ---- blocks ----

  ghost predicate Covered(size: map<int, int>, own: map<int, int>, h: int) {
    h in size && 0 < size[h] && forall u :: h <= u < h + size[h] ==> u in own && own[u] == h
  }

  /** own[u] is the header of the block unit u lies in: the blocks in B cover the units
      obtained so far, each exactly once. */
  ghost predicate Tiled(B: set<int>, size: map<int, int>, own: map<int, int>) {
    && (forall h :: h in B ==> Covered(size, own, h))
    && (forall u :: u in own ==> own[u] in B && own[u] <= u < own[u] + size[own[u]])
  }

  /** Two blocks share no unit. */
  lemma TiledApart(B: set<int>, size: map<int, int>, own: map<int, int>, a: int, b: int)
    requires Tiled(B, size, own) && a in B && b in B && a < b
    ensures a + size[a] <= b
  {
    assert own[b] == b;
  }

  function Relabel(own: map<int, int>, from: int, to: int): map<int, int> {
    map u | u in own :: if own[u] == from then to else own[u]
  }

  /** Block g starts where h ends and is joined to it. */
  lemma TiledAbsorb(B: set<int>, size: map<int, int>, own: map<int, int>, h: int, g: int)
    requires Tiled(B, size, own) && h in B && g in B && g == h + size[h]
    ensures Tiled(B - {g}, size[h := size[h] + size[g]], Relabel(own, g, h))
  {
    var r := size[h := size[h] + size[g]];
    forall b | b in B - {g}
      ensures Covered(r, Relabel(own, g, h), b)
    {
      assert Covered(size, own, b) && Covered(size, own, h) && Covered(size, own, g);
    }
  }

  function Carve(own: map<int, int>, q: int, n: int): map<int, int> {
    map u | u in own :: if q <= u < q + n then q else own[u]
  }

  /** The last n units of block h become a block q of their own. */
  lemma TiledSplit(B: set<int>, size: map<int, int>, own: map<int, int>, h: int, q: int, n: int)
    requires Tiled(B, size, own) && h in B && 0 < n < size[h] && q == h + size[h] - n
    ensures q !in B && Tiled(B + {q}, size[h := size[h] - n][q := n], Carve(own, q, n))
  {
    assert Covered(size, own, h) && own[q] == h;
    assert q in B ==> Covered(size, own, q);
    var r := size[h := size[h] - n][q := n];
    forall b | b in B + {q}
      ensures Covered(r, Carve(own, q, n), b)
    {
      assert b in B ==> Covered(size, own, b);
    }
  }

  /** n new units from sbrk become a block. */
  lemma TiledGrow(B: set<int>, size: map<int, int>, own: map<int, int>, q: int, n: int)
    requires Tiled(B, size, own) && 0 < n && forall u :: q <= u < q + n ==> u !in own
    ensures q !in B && Tiled(B + {q}, size[q := n], Extended(own, q, n))
  {
    assert q !in own;
    assert q in B ==> Covered(size, own, q) && q in own;
    forall b | b in B + {q}
      ensures Covered(size[q := n], Extended(own, q, n), b)
    {
      assert b in B ==> Covered(size, own, b);
    }
  }

  function Extended(own: map<int, int>, q: int, n: int): map<int, int> {
    map u | u in own.Keys + Span(q, n) :: if q <= u < q + n then q else own[u]
  }

  function Span(q: int, n: int): (s: set<int>)
    ensures forall u :: u in s <==> q <= u < q + n
    decreases if n < 0 then 0 else n
  {
    if n <= 0 then {} else Span(q, n - 1) + {q + n - 1}
  }

  // ---- the heap ----

  /** F holds the free headers and base, live the allocated ones, blocks all of them but base. */
  datatype Arena = Arena(F: set<int>, live: set<int>, blocks: set<int>, ptr: map<int, int>, size: map<int, int>,
      own: map<int, int>)

  ghost predicate Sorted(a: Arena, base: int) {
    && (forall h :: h in a.live ==> h in a.blocks && h !in a.F)
    && (forall h :: h in a.F && h != base ==> h in a.blocks)
    && (forall h :: h in a.blocks ==> h in a.live || h in a.F)
    && base in a.size && a.size[base] == 0 && base !in a.blocks
    && (forall u :: u in a.own ==> base < u)
  }

  ghost predicate Shape(a: Arena, base: int) {
    Ring(a.F, a.ptr, base) && Tiled(a.blocks, a.size, a.own) && Sorted(a, base)
  }

  /** But for x and y, no free block ends where another starts. */
  ghost predicate Coalesced(a: Arena, base: int, x: int, y: int) {
    forall h :: h in a.F && h != base && h != x && h != y ==> h in a.size && h + a.size[h] !in a.F
  }

  ghost predicate Inv(a: Arena, base: int) {
    Shape(a, base) && Coalesced(a, base, base, base)
  }

  /** A free block can only run into the one its pointer names. */
  lemma EndsAtNext(a: Arena, base: int, h: int)
    requires Shape(a, base) && h in a.F && h != base && h + a.size[h] in a.F
    ensures h in a.ptr && a.ptr[h] == h + a.size[h] && a.ptr[h] != base
  {
    assert Linked(a.F, a.ptr, h, base);
    if a.ptr[h] != base {
      TiledApart(a.blocks, a.size, a.own, h, a.ptr[h]);
    }
  }

  function Inserted(a: Arena, p: int, b: int): Arena
    requires p in a.ptr
  {
    a.(F := a.F + {b}, live := a.live - {b}, ptr := a.ptr[b := a.ptr[p]][p := b])
  }

  /** Block h takes in the block n after it. */
  function Absorbed(a: Arena, h: int, n: int): Arena
    requires n in a.ptr && h in a.size && n in a.size
  {
    a.(F := a.F - {n}, blocks := a.blocks - {n}, ptr := a.ptr[h := a.ptr[n]],
       size := a.size[h := a.size[h] + a.size[n]], own := Relabel(a.own, n, h))
  }

  lemma InsertKeepsShape(a: Arena, base: int, p: int, b: int)
    requires Shape(a, base) && b in a.live && Before(a.F, p, b)
    ensures p in a.ptr && Shape(Inserted(a, p, b), base)
  {
    RingInsert(a.F, a.ptr, base, p, b);
  }

  lemma InsertGaps(a: Arena, base: int, p: int, b: int)
    requires Inv(a, base) && b in a.live && Before(a.F, p, b) && p in a.ptr
    ensures Coalesced(Inserted(a, p, b), base, p, b)
  {
    forall h | h in a.F && h != base && h != p
      ensures h + a.size[h] != b
    {
      if h < p {
        TiledApart(a.blocks, a.size, a.own, h, p);
      }
    }
  }

  lemma AbsorbKeepsShape(a: Arena, base: int, h: int, n: int)
    requires Shape(a, base) && h in a.F && h != base && h in a.ptr && a.ptr[h] == n == h + a.size[h]
    ensures n in a.ptr && n in a.size && Shape(Absorbed(a, h, n), base)
  {
    assert Linked(a.F, a.ptr, h, base);
    RingRemove(a.F, a.ptr, base, h, n);
    TiledAbsorb(a.blocks, a.size, a.own, h, n);
  }

  /** Once h has taken in the block after it, h is no exception any more. */
  lemma AbsorbGaps(a: Arena, base: int, h: int, n: int, other: int)
    requires Shape(a, base) && h in a.F && h != base && n in a.F && n in a.ptr && n != base && n == h + a.size[h]
              && n != other
    requires Coalesced(a, base, other, h)
    ensures Coalesced(Absorbed(a, h, n), base, base, other)
  {
  }

  /** Join block h with the next if they touch. */
  function Joined(a: Arena, h: int, n: int): Arena
    requires n in a.ptr && h in a.size && n in a.size
  {
    if h + a.size[h] == n then Absorbed(a, h, n) else a
  }

  lemma JoinKeeps(a: Arena, base: int, h: int, n: int, other: int)
    requires Shape(a, base) && h in a.F && Coalesced(a, base, other, h) && Linked(a.F, a.ptr, h, base) && a.ptr[h] == n
    requires n != other || n == base
    requires h == base ==> n != base
    ensures n in a.ptr && h in a.size && n in a.size
    ensures Shape(Joined(a, h, n), base) && Coalesced(Joined(a, h, n), base, base, other)
  {
    assert Linked(a.F, a.ptr, n, base);
    if h + a.size[h] == n {
      AbsorbKeepsShape(a, base, h, n);
      AbsorbGaps(a, base, h, n, other);
    } else if h != base && h + a.size[h] in a.F {
      EndsAtNext(a, base, h);
    }
  }

  ghost function Freed(a: Arena, p: int, b: int): Arena
    requires p in a.ptr && a.ptr[p] in a.ptr && a.ptr[p] in a.size && b in a.size && p in a.size
  {
    var joined := Joined(Inserted(a, p, b), b, a.ptr[p]);
    Joined(joined, p, b)
  }

  lemma FreeKeeps(a: Arena, base: int, p: int, b: int)
    requires Inv(a, base) && b in a.live && Before(a.F, p, b)
    ensures p in a.ptr && a.ptr[p] in a.ptr && a.ptr[p] in a.size && b in a.size && p in a.size
    ensures Inv(Freed(a, p, b), base)
  {
    assert Linked(a.F, a.ptr, p, base);
    var n := a.ptr[p];
    assert Linked(a.F, a.ptr, n, base);
    var one := Inserted(a, p, b);
    InsertKeepsShape(a, base, p, b);
    InsertGaps(a, base, p, b);
    assert Linked(one.F, one.ptr, b, base);
    JoinKeeps(one, base, b, n, p);
    var two := Joined(one, b, n);
    assert Linked(two.F, two.ptr, p, base);
    JoinKeeps(two, base, p, b, base);
  }

  /** free merges and moves units between blocks, and touches nothing that is allocated. */
  lemma FreeFrame(a: Arena, base: int, p: int, b: int)
    requires Inv(a, base) && b in a.live && Before(a.F, p, b)
    requires p in a.ptr && a.ptr[p] in a.ptr && a.ptr[p] in a.size && b in a.size && p in a.size
    ensures var r := Freed(a, p, b);
            && r.live == a.live - {b} && r.own.Keys == a.own.Keys && p in r.F
            && SizesKept(r.live, a.size, r.size)
            && b in r.own && r.own[b] in r.F && r.size[r.own[b]] >= a.size[b]
  {
    FreeKeeps(a, base, p, b);
    assert Linked(a.F, a.ptr, p, base);
    assert a.own[b] == b;
  }

  /** The four assignments of free, in order, make those changes. */
  lemma FreedFields(a: Arena, base: int, p: int, b: int, size1: map<int, int>, ptr1: map<int, int>)
    requires Inv(a, base) && b in a.live && Before(a.F, p, b)
    requires p in a.ptr && a.ptr[p] in a.ptr && a.ptr[p] in a.size && b in a.size && p in a.size
    requires size1 == if b + a.size[b] == a.ptr[p] then a.size[b := a.size[b] + a.size[a.ptr[p]]] else a.size
    requires ptr1 == if b + a.size[b] == a.ptr[p] then a.ptr[b := a.ptr[a.ptr[p]]] else a.ptr[b := a.ptr[p]]
    ensures Freed(a, p, b).size == if p + size1[p] == b then size1[p := size1[p] + size1[b]] else size1
    ensures Freed(a, p, b).ptr == if p + size1[p] == b then ptr1[p := ptr1[b]] else ptr1[p := b]
  {
    assert Linked(a.F, a.ptr, p, base);
  }

  lemma BlockAboveBase(a: Arena, base: int, b: int)
    requires Shape(a, base) && b in a.blocks
    ensures base < b
  {
    assert a.own[b] == b;
  }

  // ---- taking blocks ----

  function TookWhole(a: Arena, p: int, x: int): Arena
    requires x in a.ptr
  {
    a.(F := a.F - {x}, live := a.live + {x}, ptr := a.ptr[p := a.ptr[x]])
  }

  lemma TakeWholeKeeps(a: Arena, base: int, p: int, x: int)
    requires Inv(a, base) && p in a.F && p in a.ptr && a.ptr[p] == x != base
    ensures x in a.ptr && x in a.blocks && p != x && Inv(TookWhole(a, p, x), base)
  {
    assert Linked(a.F, a.ptr, p, base);
    RingRemove(a.F, a.ptr, base, p, x);
  }

  function TookEnd(a: Arena, x: int, q: int, n: int): Arena {
    a.(live := a.live + {q}, blocks := a.blocks + {q}, size := a.size[x := q - x][q := n], own := Carve(a.own, q, n))
  }

  lemma TakeEndGaps(a: Arena, base: int, x: int, q: int, n: int)
    requires Sorted(a, base) && Coalesced(a, base, base, base) && x in a.F && base < x && x < q
    requires q !in a.blocks && forall h :: h in a.blocks ==> h in a.size
    ensures Sorted(TookEnd(a, x, q, n), base) && Coalesced(TookEnd(a, x, q, n), base, base, base)
  {
    assert q !in a.F;
  }

  lemma TakeEndKeeps(a: Arena, base: int, x: int, q: int, n: int)
    requires Inv(a, base) && x in a.F && x != base && x in a.size && 0 < n < a.size[x] && q == x + a.size[x] - n
    ensures q !in a.blocks && Inv(TookEnd(a, x, q, n), base)
  {
    TiledSplit(a.blocks, a.size, a.own, x, q, n);
    BlockAboveBase(a, base, x);
    TakeEndGaps(a, base, x, q, n);
    assert a.size[x] - n == q - x;
  }

  function Grown(a: Arena, q: int, n: int): Arena {
    a.(live := a.live + {q}, blocks := a.blocks + {q}, size := a.size[q := n], own := Extended(a.own, q, n))
  }

  lemma GrowKeeps(a: Arena, base: int, q: int, n: int)
    requires Inv(a, base) && 0 < n && base < q && forall u :: q <= u < q + n ==> u !in a.own
    ensures q !in a.blocks && Inv(Grown(a, q, n), base)
  {
    TiledGrow(a.blocks, a.size, a.own, q, n);
  }

  // ---- going round the ring ----

  /** The headers met going round from p up to f. */
  ghost function Ahead(F: set<int>, p: int, f: int): set<int> {
    set g | g in F && (if p <= f then p <= g <= f else p <= g || g <= f)
  }

  lemma AheadAll(F: set<int>, f: int, n: int, base: int)
    requires base in F && (forall h :: h in F ==> base <= h) && f in F && Follows(F, f, n, base)
    ensures Ahead(F, n, f) == F
  {
  }

  lemma AheadStep(F: set<int>, p: int, f: int, n: int, base: int)
    requires base in F && (forall h :: h in F ==> base <= h) && f in F && p in F && p != f && Follows(F, p, n, base)
    ensures Ahead(F, n, f) == Ahead(F, p, f) - {p} && p in Ahead(F, p, f)
  {
  }

  // ---- sizes ----

  /** malloc's nunits, in 32-bit arithmetic. */
  function Units(nbytes: int): (n: int) {
    ((nbytes + 7) % WORD32) / 8 + 1
  }

  /** The amount morecore asks sbrk for: a signed 32-bit argument. */
  function SbrkArgument(nunits: int): int {
    var bytes := (AtLeastPage(nunits) * 8) % WORD32;
    if bytes < WORD32 / 2 then bytes else bytes - WORD32
  }

  /** A block of Units(nbytes) has room for the header and nbytes, and morecore asks for at
      least that much, exactly up to this size; above it the arithmetic has wrapped. */
  lemma RequestHonest(nbytes: int)
    requires 0 <= nbytes < WORD32
    ensures Units(nbytes) * 8 >= nbytes + 8 && SbrkArgument(Units(nbytes)) >= Units(nbytes) * 8 <==>
              nbytes <= WORD32 / 2 - 16
  {
  }

  ghost predicate SizesKept(live: set<int>, was: map<int, int>, size: map<int, int>) {
    forall h :: h in live ==> h in size && h in was && size[h] == was[h]
  }

  ghost predicate AllShort(F: set<int>, size: map<int, int>, nunits: int) {
    forall h :: h in F ==> h in size && size[h] < nunits
  }

  /** h is NULL exactly when no free block is long enough and sbrk gives none. Otherwise it is
      a block that was not allocated, of the right length. Other allocated blocks keep theirs,
      and the heap's units are what they were, and sbrk's if it was asked. */
  ghost predicate Allocated(a: Arena, r: Arena, h: int, nunits: int, brk: int) {
    && (h == NULL <==> AllShort(a.F, a.size, nunits) && brk == -1)
    && (h == NULL ==> r.live == a.live)
    && (h != NULL ==> h !in a.live && r.live == a.live + {h} && h in r.size && r.size[h] == nunits)
    && SizesKept(a.live, a.size, r.size)
    && r.own.Keys == a.own.Keys +
         if AllShort(a.F, a.size, nunits) && brk != -1 then Span(brk, AtLeastPage(nunits)) else {}
  }

  function AtLeastPage(nunits: int): int {
    if nunits < 4096 then 4096 else nunits
  }

  /** sbrk fails, or extends the process by units the heap has not had. */
  ghost predicate SbrkGives(brk: int, nunits: int, own: map<int, int>, base: int) {
    brk == -1 || (base < brk && forall u :: brk <= u < brk + AtLeastPage(nunits) ==> u !in own)
  }

  class Heap {
    const base: int
    var freep: int
    var ptr: map<int, int>
    var size: map<int, int>
    ghost var F: set<int>
    ghost var live: set<int>
    ghost var blocks: set<int>
    ghost var own: map<int, int>

    ghost function Value(): Arena
      reads this
    {
      Arena(F, live, blocks, ptr, size, own)
    }

    ghost predicate Valid()
      reads this
    {
      && NULL < base
      && if freep == NULL then F == live == blocks == {} && own == map[] else freep in F && Inv(Value(), base)
    }

    constructor (b: int)
      requires NULL < b
      ensures Valid() && base == b && live == {} && own == map[]
    {
      base, freep, ptr, size := b, NULL, map[], map[];
      F, live, blocks, own := {}, {}, {}, map[];
    }

    /** free's search for the place in the ring. */
    method FindPlace(b: int) returns (p: int)
      requires freep in F && Ring(F, ptr, base) && b !in F && base < b
      ensures Before(F, p, b)
    {
      p := freep;
      assert Linked(F, ptr, p, base);
      while !(b > p && b < ptr[p])
        invariant p in F && Linked(F, ptr, p, base)
        decreases if p > b then 1 else 0, set g | g in F && g > p
      {
        if p >= ptr[p] && (b > p || b < ptr[p]) {
          break;
        }
        ghost var ahead := set g | g in F && g > p;
        assert Linked(F, ptr, ptr[p], base);
        assert p < ptr[p] ==> ptr[p] in ahead;
        p := ptr[p];
      }
    }

    /** free's joins and links, once the place is found. */
    method Link(p: int, b: int)
      requires Inv(Value(), base) && b in live && Before(F, p, b)
      modifies `ptr, `size
      ensures p in old(ptr) && old(ptr)[p] in old(ptr) && old(ptr)[p] in old(size) && b in old(size) && p in old(size)
      ensures ptr == Freed(old(Value()), p, b).ptr && size == Freed(old(Value()), p, b).size
    {
      ghost var a := Value();
      FreeKeeps(a, base, p, b);
      var n := ptr[p];
      if b + size[b] == n {
        size := size[b := size[b] + size[n]];
        ptr := ptr[b := ptr[n]];
      } else {
        ptr := ptr[b := n];
      }
      FreedFields(a, base, p, b, size, ptr);
      if p + size[p] == b {
        size := size[p := size[p] + size[b]];
        ptr := ptr[p := ptr[b]];
      } else {
        ptr := ptr[p := b];
      }
    }

    /** free: the block goes back to the ring in address order, joined to a free neighbour on
        either side; no unit is lost and no other allocated block changes. */
    method Free(b: int)
      requires Valid() && b in live
      modifies `ptr, `size, `freep, `F, `live, `blocks, `own
      ensures Valid() && freep != NULL
      ensures live == old(live) - {b} && own.Keys == old(own.Keys)
      ensures SizesKept(live, old(size), size)
      ensures b in own && own[b] in F && size[own[b]] >= old(size)[b]
    {
      ghost var a := Value();
      BlockAboveBase(a, base, b);
      var p := FindPlace(b);
      FreeKeeps(a, base, p, b);
      FreeFrame(a, base, p, b);
      Link(p, b);
      ghost var r := Freed(a, p, b);
      freep := p;
      F, live, blocks, own := r.F, r.live, r.blocks, r.own;
      assert Value() == r;
    }

    /** malloc once a block fits: all of it, or its end. */
    method TakeBlock(prevp: int, x: int, nunits: int) returns (h: int)
      requires Valid() && freep != NULL && prevp in F && prevp in ptr && ptr[prevp] == x && x in size
                && 0 < nunits <= size[x]
      modifies `ptr, `size, `freep, `F, `live, `blocks, `own
      ensures Valid() && freep == prevp && NULL < h
      ensures h !in old(live) && live == old(live) + {h} && h in size && size[h] == nunits && own.Keys == old(own.Keys)
      ensures SizesKept(old(live), old(size), size)
    {
      ghost var a := Value();
      assert Linked(F, ptr, prevp, base);
      if size[x] == nunits {
        TakeWholeKeeps(a, base, prevp, x);
        ptr := ptr[prevp := ptr[x]];
        h := x;
        F, live := F - {x}, live + {x};
        assert Value() == TookWhole(a, prevp, x);
      } else {
        TakeEndKeeps(a, base, x, x + size[x] - nunits, nunits);
        size := size[x := size[x] - nunits];
        h := x + size[x];
        size := size[h := nunits];
        live, blocks, own := live + {h}, blocks + {h}, Carve(own, h, nunits);
        assert Value() == TookEnd(a, x, h, nunits);
      }
      freep := prevp;
      BlockAboveBase(Value(), base, h);
    }

    /** morecore, with sbrk's answer: -1, or the first of fresh units. */
    method Morecore(nunits: int, brk: int) returns (ok: bool, ghost w: int)
      requires Valid() && freep != NULL && 0 < nunits && SbrkGives(brk, nunits, own, base)
      modifies `ptr, `size, `freep, `F, `live, `blocks, `own
      ensures Valid() && freep != NULL && live == old(live) && ok == (brk != -1)
      ensures SizesKept(live, old(size), size)
      ensures !ok ==> Value() == old(Value()) && freep == old(freep)
      ensures ok ==>
                own.Keys == old(own.Keys) + Span(brk, AtLeastPage(nunits)) && w in F && w in size && size[w] >= nunits
    {
      if brk == -1 {
        return false, 0;
      }
      var nu := AtLeastPage(nunits);
      GrowKeeps(Value(), base, brk, nu);
      ghost var r := Grown(Value(), brk, nu);
      size := size[brk := nu];
      live, blocks, own := r.live, r.blocks, r.own;
      assert Value() == r;
      Free(brk);
      return true, own[brk];
    }

    /** malloc's first call makes the ring of base alone. */
    method Start()
      requires Valid()
      modifies `ptr, `size, `freep, `F
      ensures Valid() && freep != NULL
      ensures old(freep) != NULL ==> Value() == old(Value()) && freep == old(freep)
      ensures old(freep) == NULL ==> F == {base} && base in size && size[base] == 0
    {
      if freep == NULL {
        freep := base;
        ptr := ptr[base := base];
        size := size[base := 0];
        F := {base};
        assert Linked(F, ptr, base, base);
      }
    }

    /** One turn of malloc's loop round the ring, from freep's successor to freep. */
    method Search(nunits: int) returns (found: bool, prevp: int, p: int)
      requires Valid() && freep != NULL
      ensures found ==> prevp in F && prevp in ptr && ptr[prevp] == p && p in F && p in size && size[p] >= nunits
      ensures !found <==> AllShort(F, size, nunits)
    {
      prevp := freep;
      assert Linked(F, ptr, freep, base);
      p := ptr[prevp];
      AheadAll(F, freep, p, base);
      while true
        invariant prevp in F && Linked(F, ptr, prevp, base) && ptr[prevp] == p
        invariant forall g :: g in F && g !in Ahead(F, p, freep) ==> g in size && size[g] < nunits
        decreases Ahead(F, p, freep)
      {
        assert Linked(F, ptr, p, base);
        if size[p] >= nunits {
          return true, prevp, p;
        }
        if p == freep {
          return false, prevp, p;
        }
        AheadStep(F, p, freep, ptr[p], base);
        prevp := p;
        p := ptr[p];
      }
    }

    /** malloc for a number of units. morecore runs at most once: it leaves freep where the
        next turn round the ring, the last, is sure to find a block. */
    method Allocate(nunits: int, brk: int) returns (h: int, asked: bool)
      requires Valid() && 0 < nunits && SbrkGives(brk, nunits, own, base)
      modifies `ptr, `size, `freep, `F, `live, `blocks, `own
      ensures Valid() && 0 <= h && Allocated(old(Value()), Value(), h, nunits, brk)
      ensures asked <==> AllShort(old(F), old(size), nunits)
    {
      Start();
      var found, prevp, p := Search(nunits);
      asked := !found;
      if !found {
        var ok;
        ghost var w;
        ok, w := Morecore(nunits, brk);
        if !ok {
          return NULL, true;
        }
        found, prevp, p := Search(nunits);
      }
      h := TakeBlock(prevp, p, nunits);
    }

    /** malloc. sbrk's answer, if it comes to that, is brk. */
    method Malloc(nbytes: int, brk: int) returns (r: int, asked: bool)
      requires Valid() && 0 <= nbytes < WORD32 && SbrkGives(brk, Units(nbytes), own, base)
      modifies `ptr, `size, `freep, `F, `live, `blocks, `own
      ensures Valid() && Allocated(old(Value()), Value(), if r == NULL then NULL else r - 1, Units(nbytes), brk)
      ensures asked <==> AllShort(old(F), old(size), Units(nbytes))
    {
      r, asked := Allocate(Units(nbytes), brk);
      if r != NULL {
        r := r + 1;
      }
    }
  }
}
