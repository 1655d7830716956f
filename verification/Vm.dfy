/** kalloc.c, vm.c and the page-fault arm of trap.c: pages move between the free list
    and address spaces, and user memory appears on first touch. */
module Vm {
  import opened PageTables

  const KERNBASE := 0x8000_0000
  const UINT := 0x1_0000_0000

  function Junk(next: int): Page {
    seq(1024, i => if i == 0 then next else 0x0101_0101)
  }

  // ---- the free list, linked through word 0 of each free page ----

  /** What the link word of the i-th free page holds. */
  ghost function NextFree(free: seq<int>, i: int): int
    requires 0 <= i < |free|
  {
    if i + 1 < |free| then free[i + 1] else 0
  }

  ghost predicate FreeOk(mem: Mem, owner: Owners, freelist: int, free: seq<int>) {
    && (forall i :: 0 <= i < |free| ==> free[i] in owner && owner[free[i]] == Free && free[i] in mem)
    && (forall p :: p in owner && owner[p] == Free ==> p in free)
    && (forall i, j :: 0 <= i < j < |free| ==> free[i] != free[j])
    && freelist == (if free == [] then 0 else free[0])
    && (forall i :: 0 <= i < |free| ==> mem[free[i]][0] == NextFree(free, i))
  }

  /** Changing pages that are not free leaves the list alone. */
  lemma FreeOkFrame(mem: Mem, owner: Owners, freelist: int, free: seq<int>, m: Mem, w: Owners)
    requires FreeOk(mem, owner, freelist, free) && owner.Keys == w.Keys && mem.Keys <= m.Keys
    requires forall p :: p in owner && owner[p] == Free ==> w[p] == Free && m[p] == mem[p]
    requires forall p :: p in owner && owner[p] != Free ==> w[p] != Free
    ensures FreeOk(m, w, freelist, free)
  {
    forall p | p in w && w[p] == Free
      ensures p in free
    {
      assert p in owner;
    }
  }

  lemma FreeOkPop(mem: Mem, owner: Owners, freelist: int, free: seq<int>)
    requires FreeOk(mem, owner, freelist, free) && free != []
    ensures FreeOk(mem, owner[free[0] := Kernel], mem[free[0]][0], free[1..])
  {
    var rest := free[1..];
    forall i | 0 <= i < |rest|
      ensures mem[rest[i]][0] == NextFree(rest, i)
    {
      assert mem[free[i + 1]][0] == NextFree(free, i + 1);
    }
    assert mem[free[0]][0] == NextFree(free, 0);
  }

  lemma FreeOkPush(mem: Mem, owner: Owners, freelist: int, free: seq<int>, p: int)
    requires FreeOk(mem, owner, freelist, free) && p in owner && owner[p] != Free && p in mem
    ensures FreeOk(mem[p := Junk(freelist)], owner[p := Free], p, [p] + free)
  {
    var m, longer := mem[p := Junk(freelist)], [p] + free;
    forall i | 0 <= i < |longer|
      ensures m[longer[i]][0] == NextFree(longer, i)
    {
      if i > 0 {
        assert longer[i] == free[i - 1] && mem[free[i - 1]][0] == NextFree(free, i - 1);
      }
    }
    forall q | q in owner[p := Free] && owner[p := Free][q] == Free
      ensures q in longer
    {
      assert q != p ==> q in free;
    }
  }

  // ---- address spaces ----

  /** Page q is the directory, a table or a user page of address space d. */
  ghost predicate Belongs(owner: Owners, q: int, d: int) {
    q in owner && (q == d || (owner[q].Table? && owner[q].dir == d) || (owner[q].User? && owner[q].dir == d))
  }

  /** Pages in use outside address space d, other than p, keep their role and contents. */
  ghost predicate Keeps(mem: Mem, owner: Owners, m: Mem, w: Owners, d: int, p: int) {
    && owner.Keys == w.Keys
    && forall q :: q in owner && owner[q] != Free && !Belongs(owner, q, d) && q != p ==>
         w[q] == owner[q] && q in mem && q in m && m[q] == mem[q]
  }

  /** A user page of d is neither moved nor written. */
  ghost predicate KeepsUsers(mem: Mem, owner: Owners, m: Mem, w: Owners, d: int) {
    forall q :: q in owner && owner[q].User? && owner[q].dir == d ==>
        q in w && w[q] == owner[q] && q in mem && q in m && m[q] == mem[q]
  }

  ghost predicate SameEntries(mem: Mem, m: Mem, d: int) {
    forall v :: 0 <= v < 1048576 ==> Entry(m, d, v) == Entry(mem, d, v)
  }

  /** User memory as the process sees it: an unmapped page reads as zeros. */
  function UserPage(mem: Mem, d: int, v: int): Page
    requires 0 <= v < KERNVPN
  {
    var w := Entry(mem, d, v);
    if Present(w) && PageOf(w) in mem then mem[PageOf(w)] else ZeroPage()
  }

  /** What happens in address space d is invisible in every other. */
  lemma OthersUntouched(mem: Mem, owner: Owners, m: Mem, w: Owners, d: int, p: int, e: int)
    requires Inv(mem, owner) && Inv(m, w) && Keeps(mem, owner, m, w, d, p)
    requires IsDir(owner, e) && e != d && p in owner && (owner[p] == Kernel || owner[p] == Free)
    requires d in owner && !owner[d].Table? && !owner[d].User?
    ensures IsDir(w, e) && SameEntries(mem, m, e)
    ensures forall v :: 0 <= v < KERNVPN ==> UserPage(m, e, v) == UserPage(mem, e, v)
  {
    assert !Belongs(owner, e, d) && e != p;
    forall v | 0 <= v < 1048576
      ensures Entry(m, e, v) == Entry(mem, e, v)
      ensures v < KERNVPN ==> UserPage(m, e, v) == UserPage(mem, e, v)
    {
      if Present(mem[e][v / 1024]) {
        EntryInTable(mem, owner, e, v);
        var t := TableFor(mem, e, v);
        assert !Belongs(owner, t, d) && t != p;
        if v < KERNVPN && Present(mem[t][v % 1024]) {
          var q := PageOf(mem[t][v % 1024]);
          assert owner[q].User? && owner[q].dir == e;
          assert !Belongs(owner, q, d) && q != p;
        }
      }
    }
  }

  /** Everything walkpgdir does to memory when it adds a table. */
  function TableAdded(mem: Mem, d: int, i: int, t: int): Mem
    requires d in mem && 0 <= i < NPDENTRIES
  {
    mem[t := ZeroPage()][d := mem[d][i := Pte(t, PTE_WU)]]
  }

  lemma TableAddedFrame(mem: Mem, owner: Owners, d: int, i: int, t: int)
    requires Inv(mem, owner) && IsDir(owner, d) && 0 <= i < NPDENTRIES && !Present(mem[d][i])
    requires t in owner && (owner[t] == Kernel || owner[t] == Free)
    ensures var m, w := TableAdded(mem, d, i, t), owner[t := Table(d, i)];
            && Inv(m, w)
            && (forall e :: IsDir(owner, e) ==> SameEntries(mem, m, e))
            && Keeps(mem, owner, m, w, d, t) && KeepsUsers(mem, owner, m, w, d)
  {
    ScribbleKeeps(mem, owner, t, mem[t], Kernel);
    assert mem[t := mem[t]] == mem;
    NewTableKeeps(mem, owner[t := Kernel], d, i, t);
    assert owner[t := Kernel][t := Table(d, i)] == owner[t := Table(d, i)];
    var m := TableAdded(mem, d, i, t);
    forall e, v | IsDir(owner, e) && 0 <= v < 1048576
      ensures Entry(m, e, v) == Entry(mem, e, v)
    {
      assert IsDir(owner[t := Kernel], e);
    }
  }

  lemma WalkAdds(mem: Mem, owner: Owners, freelist: int, free: seq<int>, d: int, i: int)
    requires Inv(mem, owner) && FreeOk(mem, owner, freelist, free) && free != []
    requires IsDir(owner, d) && 0 <= i < NPDENTRIES && !Present(mem[d][i])
    ensures var t := free[0];
            var m, w := TableAdded(mem, d, i, t), owner[t := Table(d, i)];
            && Inv(m, w) && FreeOk(m, w, mem[t][0], free[1..])
            && owner[t := Kernel][t := Table(d, i)] == w
  {
    var t := free[0];
    TableAddedFrame(mem, owner, d, i, t);
    FreeOkPop(mem, owner, freelist, free);
    FreeOkFrame(mem, owner[t := Kernel], mem[t][0], free[1..], TableAdded(mem, d, i, t), owner[t := Table(d, i)]);
  }

  /** Everything mappages does for one user page whose table exists. */
  lemma UserMappedFrame(mem: Mem, owner: Owners, d: int, v: int, p: int, perm: int)
    requires Inv(mem, owner) && IsDir(owner, d) && 0 <= v < KERNVPN && Present(mem[d][v / 1024])
    requires !Present(Entry(mem, d, v)) && p in owner && owner[p] == Kernel && 0 <= perm < PGSIZE
    ensures TableFor(mem, d, v) in mem
    ensures var m, w := SetEntry(mem, d, v, Pte(p, perm)), owner[p := User(d, v)];
            && Inv(m, w) && Keeps(mem, owner, m, w, d, p) && KeepsUsers(mem, owner, m, w, d) && m[p] == mem[p]
            && (forall q :: q in owner && owner[q] == Free ==> m[q] == mem[q])
            && Mapping(mem, m, d, v, Pte(p, perm))
  {
    EntryInTable(mem, owner, d, v);
    SetEntryFrame(mem, owner, d, v, Pte(p, perm));
    MapUserKeeps(mem, owner, d, v, p, perm);
  }

  lemma KernelMappedFrame(mem: Mem, owner: Owners, d: int, v: int, w: int)
    requires Inv(mem, owner) && IsDir(owner, d) && KERNVPN <= v < 1048576 && Present(mem[d][v / 1024])
    ensures TableFor(mem, d, v) in mem
    ensures var m := SetEntry(mem, d, v, w);
            && Inv(m, owner) && Keeps(mem, owner, m, owner, d, 0) && KeepsUsers(mem, owner, m, owner, d)
            && (forall q :: q in owner && owner[q] == Free ==> m[q] == mem[q])
            && Mapping(mem, m, d, v, w)
  {
    EntryInTable(mem, owner, d, v);
    SetEntryFrame(mem, owner, d, v, w);
    MapKernelKeeps(mem, owner, d, v, w);
  }

  lemma KeepsTransitive(m0: Mem, w0: Owners, m1: Mem, w1: Owners, m2: Mem, w2: Owners, d: int, p: int)
    requires Keeps(m0, w0, m1, w1, d, p) && Keeps(m1, w1, m2, w2, d, p)
    ensures Keeps(m0, w0, m2, w2, d, p)
  {
    forall q | q in w0 && w0[q] != Free && !Belongs(w0, q, d) && q != p
      ensures w2[q] == w0[q] && q in m0 && q in m2 && m2[q] == m0[q]
    {
      assert w1[q] == w0[q];
      assert !Belongs(w1, q, d);
    }
  }

  /** The walk's part of mappages: nothing but a table page is added. */
  ghost predicate WalkedTo(m0: Mem, w0: Owners, m1: Mem, w1: Owners, d: int) {
    && SameEntries(m0, m1, d) && w0.Keys == w1.Keys
    && (forall q :: q in w0 && w0[q] != Free ==> w1[q] == w0[q] && q in m0 && q in m1 && (q != d ==> m1[q] == m0[q]))
  }

  lemma WalkedAdding(mem: Mem, owner: Owners, d: int, i: int, t: int)
    requires Inv(mem, owner) && IsDir(owner, d) && 0 <= i < NPDENTRIES && !Present(mem[d][i])
    requires t in owner && owner[t] == Free
    ensures WalkedTo(mem, owner, TableAdded(mem, d, i, t), owner[t := Table(d, i)], d)
  {
    TableAddedFrame(mem, owner, d, i, t);
  }

  lemma WalkedThenSet(m0: Mem, w0: Owners, m1: Mem, w1: Owners, m2: Mem, w2: Owners, d: int, p: int)
    requires WalkedTo(m0, w0, m1, w1, d) && IsDir(w0, d)
    requires Keeps(m1, w1, m2, w2, d, p) && KeepsUsers(m1, w1, m2, w2, d)
    ensures Keeps(m0, w0, m2, w2, d, p) && KeepsUsers(m0, w0, m2, w2, d)
  {
    forall q | q in w0 && w0[q] != Free && !Belongs(w0, q, d) && q != p
      ensures w2[q] == w0[q] && q in m0 && q in m2 && m2[q] == m0[q]
    {
      assert w1[q] == w0[q];
      assert !Belongs(w1, q, d);
    }
  }

  /** Apart from p, the only pages to change hands went from the free list to tables of d. */
  ghost predicate OnlyTables(w0: Owners, w: Owners, d: int, p: int) {
    && w0.Keys == w.Keys
    && forall q :: q in w0 && q != p ==> w[q] == w0[q] || (w0[q] == Free && w[q].Table? && w[q].dir == d)
  }

  /** Exactly the entry of v changed, to w. */
  ghost predicate Mapping(m0: Mem, m: Mem, d: int, v: int, w: int) {
    forall u :: 0 <= u < 1048576 ==> Entry(m, d, u) == if u == v then w else Entry(m0, d, u)
  }

  /** Exactly the entries lo..hi-1 changed, and they map consecutive pages from p. */
  ghost predicate RangeMapped(m0: Mem, m: Mem, d: int, lo: int, hi: int, p: int, perm: int)
    requires 0 <= perm < PGSIZE
  {
    forall u :: 0 <= u < 1048576 ==> Entry(m, d, u) == if lo <= u < hi then Pte(p + (u - lo), perm) else Entry(m0, d, u)
  }

  lemma RangeMore(m0: Mem, m1: Mem, m2: Mem, d: int, lo: int, v: int, p: int, perm: int)
    requires 0 <= perm < PGSIZE && lo <= v && RangeMapped(m0, m1, d, lo, v, p, perm)
    requires Mapping(m1, m2, d, v, Pte(p + (v - lo), perm))
    ensures RangeMapped(m0, m2, d, lo, v + 1, p, perm)
  {
  }

  // ---- what mapping costs ----

  /** Directory entry i of d has a table. */
  ghost predicate HasTable(mem: Mem, d: int, i: int) {
    0 <= i < NPDENTRIES && d in mem && Present(mem[d][i])
  }

  /** How many of lo..hi-1 satisfy f. */
  ghost function Count(f: int -> bool, lo: int, hi: int): (n: int)
    ensures n >= 0
    decreases hi - lo
  {
    if lo < hi then Count(f, lo, hi - 1) + (if f(hi - 1) then 1 else 0) else 0
  }

  /** More hold, more are counted. */
  lemma {:induction false} CountMore(f: int -> bool, g: int -> bool, lo: int, hi: int)
    requires forall i :: lo <= i < hi && f(i) ==> g(i)
    ensures Count(f, lo, hi) <= Count(g, lo, hi)
    ensures forall x :: lo <= x < hi && g(x) && !f(x) ==> Count(f, lo, hi) < Count(g, lo, hi)
    decreases hi - lo
  {
    if lo < hi {
      CountMore(f, g, lo, hi - 1);
    }
  }

  lemma {:induction false} CountSame(f: int -> bool, g: int -> bool, lo: int, hi: int)
    requires forall i :: lo <= i < hi ==> f(i) == g(i)
    ensures Count(f, lo, hi) == Count(g, lo, hi)
    decreases hi - lo
  {
    if lo < hi {
      CountSame(f, g, lo, hi - 1);
    }
  }

  lemma {:induction false} CountOneMore(f: int -> bool, g: int -> bool, lo: int, hi: int, x: int)
    requires lo <= x < hi && !f(x) && forall i :: lo <= i < hi ==> g(i) == (f(i) || i == x)
    ensures Count(g, lo, hi) == Count(f, lo, hi) + 1
    decreases hi - lo
  {
    if x == hi - 1 {
      CountSame(f, g, lo, hi - 1);
    } else {
      CountOneMore(f, g, lo, hi - 1, x);
    }
  }

  lemma {:induction false} CountSplit(f: int -> bool, lo: int, mid: int, hi: int)
    requires lo <= mid <= hi
    ensures Count(f, lo, hi) == Count(f, lo, mid) + Count(f, mid, hi)
    decreases hi - mid
  {
    if mid < hi {
      CountSplit(f, lo, mid, hi - 1);
    }
  }

  lemma {:induction false} CountAll(f: int -> bool, lo: int, hi: int, all: bool)
    requires lo <= hi && forall i :: lo <= i < hi ==> f(i) == all
    ensures Count(f, lo, hi) == if all then hi - lo else 0
    decreases hi - lo
  {
    if lo < hi {
      CountAll(f, lo, hi - 1, all);
    }
  }

  /** How many tables d has. */
  ghost function Tables(mem: Mem, d: int): int {
    Count(i => HasTable(mem, d, i), 0, NPDENTRIES)
  }

  /** From (m0, free0) on, the table of v was added if it was missing, and only the free list
      paid for it and for `pages` more. */
  ghost predicate Paid(m0: Mem, free0: seq<int>, m: Mem, free: seq<int>, d: int, v: int, pages: int) {
    && (forall i :: HasTable(m, d, i) <==> HasTable(m0, d, i) || (0 <= i < NPDENTRIES && i == v / 1024))
    && |free| == |free0| - pages - if HasTable(m0, d, v / 1024) then 0 else 1
  }

  lemma PaidAdding(mem: Mem, free: seq<int>, d: int, v: int, t: int)
    requires d in mem && d != t && 0 <= v < 1048576 && !Present(mem[d][v / 1024]) && free != []
    ensures Paid(mem, free, TableAdded(mem, d, v / 1024, t), free[1..], d, v, 0)
  {
  }

  lemma PaidSame(m0: Mem, free0: seq<int>, m1: Mem, m2: Mem, free: seq<int>, d: int, v: int)
    requires Paid(m0, free0, m1, free, d, v, 0) && d in m1 && d in m2 && m1[d] == m2[d]
    ensures Paid(m0, free0, m2, free, d, v, 0)
  {
    assert forall i :: HasTable(m2, d, i) <==> HasTable(m1, d, i);
  }

  lemma PaidTaken(m0: Mem, free0: seq<int>, m1: Mem, free1: seq<int>, m: Mem, free: seq<int>, d: int, v: int)
    requires d in m0 && d in m1 && m0[d] == m1[d] && |free0| == |free1| + 1 && Paid(m1, free1, m, free, d, v, 0)
    ensures Paid(m0, free0, m, free, d, v, 1)
  {
    assert forall i :: HasTable(m1, d, i) <==> HasTable(m0, d, i);
  }

  lemma PaidNothing(mem: Mem, free: seq<int>, d: int, v: int)
    requires d in mem && 0 <= v < 1048576 && Present(mem[d][v / 1024])
    ensures Paid(mem, free, mem, free, d, v, 0)
  {
  }

  lemma TablesMore(m0: Mem, m: Mem, d: int, x: int)
    requires 0 <= x < NPDENTRIES
    requires forall i :: HasTable(m, d, i) <==> HasTable(m0, d, i) || i == x
    ensures Tables(m, d) == Tables(m0, d) + if HasTable(m0, d, x) then 0 else 1
  {
    var f, g := i => HasTable(m0, d, i), i => HasTable(m, d, i);
    if HasTable(m0, d, x) {
      CountSame(f, g, 0, NPDENTRIES);
    } else {
      CountOneMore(f, g, 0, NPDENTRIES, x);
    }
  }

  /** The directory entries that kmap's regions fall under, and how many they are. */
  ghost predicate KernelDir(i: int) {
    512 <= i < 568 || 1016 <= i < 1024
  }

  const KERNELTABLES := 64

  lemma KernelDirCount()
    ensures Count(i => KernelDir(i), 0, NPDENTRIES) == KERNELTABLES
  {
    CountBands(i => KernelDir(i), 512, 568, 1016, NPDENTRIES);
  }

  lemma CountBands(f: int -> bool, a: int, b: int, c: int, e: int)
    requires 0 <= a <= b <= c <= e && forall i :: 0 <= i < e ==> f(i) == (a <= i < b || c <= i < e)
    ensures Count(f, 0, e) == b - a + (e - c)
  {
    CountSplit(f, 0, a, e);
    CountSplit(f, a, b, e);
    CountSplit(f, b, c, e);
    CountAll(f, 0, a, false);
    CountAll(f, a, b, true);
    CountAll(f, b, c, false);
    CountAll(f, c, e, true);
  }

  lemma KernelTablesShort(m: Mem, d: int, x: int)
    requires KernelDir(x) && !HasTable(m, d, x) && forall i :: HasTable(m, d, i) ==> KernelDir(i)
    ensures Tables(m, d) < KERNELTABLES
  {
    var f, g := i => HasTable(m, d, i), i => KernelDir(i);
    CountMore(f, g, 0, NPDENTRIES);
    assert g(x) && !f(x);
    KernelDirCount();
  }

  lemma KernelTablesAll(m: Mem, d: int)
    requires forall i :: HasTable(m, d, i) <==> KernelDir(i)
    ensures Tables(m, d) == KERNELTABLES
  {
    CountSame(i => HasTable(m, d, i), i => KernelDir(i), 0, NPDENTRIES);
    KernelDirCount();
  }

  /** i is one of the directory entries that pages lo..hi-1 fall under. */
  ghost predicate Under(lo: int, hi: int, i: int) {
    lo < hi && lo / 1024 <= i <= (hi - 1) / 1024
  }

  /** Pages lo..hi-1 have their tables, nothing else gained one, and only the free list paid. */
  ghost predicate Tabled(m0: Mem, free0: seq<int>, m: Mem, free: seq<int>, d: int, lo: int, hi: int) {
    && (forall i :: HasTable(m, d, i) <==> HasTable(m0, d, i) || Under(lo, hi, i))
    && |free| + Tables(m, d) == |free0| + Tables(m0, d)
  }

  lemma TabledMore(m0: Mem, free0: seq<int>, m1: Mem, free1: seq<int>, m2: Mem, free2: seq<int>, d: int, lo: int,
      v: int)
    requires 0 <= lo <= v < 1048576 && Tabled(m0, free0, m1, free1, d, lo, v) && Paid(m1, free1, m2, free2, d, v, 0)
    ensures Tabled(m0, free0, m2, free2, d, lo, v + 1)
  {
    UnderMore(lo, v);
    TablesMore(m1, m2, d, v / 1024);
  }

  /** A region of kmap that could not be finished: fewer pages were there than all of kmap needs. */
  lemma RegionShort(m0: Mem, free0: seq<int>, m: Mem, d: int, lo: int, v: int, hi: int)
    requires lo <= v < hi && Tabled(m0, free0, m, [], d, lo, v) && !HasTable(m, d, v / 1024)
    requires (forall i :: HasTable(m0, d, i) ==> KernelDir(i)) && forall i :: Under(lo, hi, i) ==> KernelDir(i)
    ensures |free0| + Tables(m0, d) < KERNELTABLES
  {
    var a, b, c := lo / 1024, (hi - 1) / 1024, v / 1024;
    assert a <= c <= b;
    assert Under(lo, hi, c);
    forall i | HasTable(m, d, i)
      ensures KernelDir(i)
    {
      if Under(lo, v, i) {
        assert (v - 1) / 1024 <= b;
        assert Under(lo, hi, i);
      }
    }
    KernelTablesShort(m, d, c);
  }

  lemma NoTables(m: Mem, d: int)
    requires forall i :: !HasTable(m, d, i)
    ensures Tables(m, d) == 0
  {
    CountAll(i => HasTable(m, d, i), 0, NPDENTRIES, false);
  }

  lemma UnderMore(lo: int, v: int)
    requires lo <= v
    ensures forall i :: Under(lo, v + 1, i) <==> Under(lo, v, i) || i == v / 1024
  {
    forall i ensures Under(lo, v + 1, i) <==> Under(lo, v, i) || i == v / 1024 { UnderOneMore(lo, v, i); }
  }

  lemma UnderOneMore(lo: int, v: int, i: int)
    requires lo <= v
    ensures Under(lo, v + 1, i) <==> Under(lo, v, i) || i == v / 1024
  {
    var a, b, c := lo / 1024, (v - 1) / 1024, v / 1024;
    assert a <= c && (b == c || b + 1 == c) && (lo < v ==> a <= b) && (lo == v ==> a == c);
    assert (v + 1 - 1) / 1024 == c;
  }

  // ---- giving user pages back ----

  /** Exactly the user pages of d at lo..hi-1 have gone to the free list. */
  ghost predicate Released(w0: Owners, w: Owners, d: int, lo: int, hi: int) {
    && w0.Keys == w.Keys
    && forall q :: q in w0 ==> w[q] == if w0[q].User? && w0[q].dir == d && lo <= w0[q].vpn < hi then Free else w0[q]
  }

  /** Exactly the entries of lo..hi-1 that were present have been cleared. */
  ghost predicate Cleared(m0: Mem, m: Mem, d: int, lo: int, hi: int) {
    forall u :: 0 <= u < 1048576 ==>
        Entry(m, d, u) == if lo <= u < hi && Present(Entry(m0, d, u)) then 0 else Entry(m0, d, u)
  }

  ghost predicate NonePresent(m: Mem, d: int, lo: int, hi: int) {
    forall v :: 0 <= v < 1048576 && lo <= v < hi ==> !Present(Entry(m, d, v))
  }

  lemma ClearedGone(m0: Mem, m: Mem, d: int, lo: int, hi: int)
    requires Cleared(m0, m, d, lo, hi)
    ensures NonePresent(m, d, lo, hi)
  {
  }

  /** Pages that are neither free before nor released hold what they held, tables and directory aside. */
  ghost predicate KeepsRest(m0: Mem, w0: Owners, m: Mem, w: Owners, d: int) {
    forall q :: q in w0 && q in w && w0[q] != Free && w[q] != Free && !(w0[q].Table? && w0[q].dir == d) && q in m0 ==>
        q in m && m[q] == m0[q]
  }

  lemma UnmappedFrame(mem: Mem, owner: Owners, freelist: int, free: seq<int>, d: int, v: int)
    requires Inv(mem, owner) && FreeOk(mem, owner, freelist, free) && IsDir(owner, d) && 0 <= v < KERNVPN
              && Present(Entry(mem, d, v))
    ensures var p := PageOf(Entry(mem, d, v));
            && TableFor(mem, d, v) in mem && p in owner && owner[p] == User(d, v)
            && var m, w := SetEntry(mem, d, v, 0), owner[p := Kernel];
               && Inv(m, w) && FreeOk(m, w, freelist, free)
               && (Mapping(mem, m, d, v, 0))
               && (forall q :: q in mem && q != TableFor(mem, d, v) ==> m[q] == mem[q])
               && TableFor(mem, d, v) in owner && owner[TableFor(mem, d, v)] == Table(d, v / 1024)
  {
    UnmapKeeps(mem, owner, d, v);
    EntryInTable(mem, owner, d, v);
    SetEntryFrame(mem, owner, d, v, 0);
    FreeOkFrame(mem, owner, freelist, free, SetEntry(mem, d, v, 0), owner[PageOf(Entry(mem, d, v)) := Kernel]);
  }

  /** Where there is no table there is nothing to release. */
  lemma NothingUnderMissingTable(mem: Mem, owner: Owners, d: int, v: int)
    requires Inv(mem, owner) && IsDir(owner, d) && 0 <= v < KERNVPN && !Present(mem[d][v / 1024])
    ensures forall u :: v <= u < (v / 1024 + 1) * 1024 ==> Entry(mem, d, u) == 0
    ensures forall q :: q in owner && owner[q].User? && owner[q].dir == d ==>
              !(v <= owner[q].vpn < (v / 1024 + 1) * 1024)
  {
    forall u | v <= u < (v / 1024 + 1) * 1024
      ensures Entry(mem, d, u) == 0
    {
      assert u / 1024 == v / 1024;
    }
  }

  /** Releasing v as well, or finding nothing at v..next-1, extends the released range. */
  lemma ReleasedMore(m0: Mem, w0: Owners, m1: Mem, w1: Owners, m2: Mem, w2: Owners, d: int, lo: int, v: int, next: int)
    requires 0 <= lo <= v <= next && Inv(m0, w0) && IsDir(w0, d)
    requires Released(w0, w1, d, lo, v) && Cleared(m0, m1, d, lo, v) && KeepsRest(m0, w0, m1, w1, d)
    requires Released(w1, w2, d, v, next) && Cleared(m1, m2, d, v, next) && KeepsRest(m1, w1, m2, w2, d)
    ensures Released(w0, w2, d, lo, next) && Cleared(m0, m2, d, lo, next) && KeepsRest(m0, w0, m2, w2, d)
  {
    forall q | q in w0 && q in w2 && w0[q] != Free && w2[q] != Free && !(w0[q].Table? && w0[q].dir == d) && q in m0
      ensures q in m2 && m2[q] == m0[q]
    {
      assert w1[q] == w0[q];
    }
  }

  /** Every page of address space d is free, and no other page changed hands. */
  ghost predicate SpaceFreed(w0: Owners, w: Owners, d: int) {
    && w0.Keys == w.Keys
    && forall q :: q in w0 ==> w[q] == if Belongs(w0, q, d) then Free else w0[q]
  }

  /** freevm half done: the tables of entries below n are free. */
  ghost predicate TablesFreed(m0: Mem, w0: Owners, m: Mem, w: Owners, d: int, n: int) {
    && w0.Keys == w.Keys
    && (forall q :: q in w0 ==> w[q] == if w0[q].Table? && w0[q].dir == d && w0[q].idx < n then Free else w0[q])
    && (forall q :: q in w0 && w[q] != Free && q in m0 ==> q in m && m[q] == m0[q])
  }

  lemma FreedThenFreed(m0: Mem, w0: Owners, m1: Mem, w1: Owners, m2: Mem, w2: Owners, d: int)
    requires Inv(m0, w0) && IsDir(w0, d)
    requires Released(w0, w1, d, 0, KERNVPN) && KeepsRest(m0, w0, m1, w1, d)
    requires SpaceFreed(w1, w2, d) && Keeps(m1, w1, m2, w2, d, 0)
    ensures SpaceFreed(w0, w2, d) && Keeps(m0, w0, m2, w2, d, 0)
  {
    forall q | q in w0 && w0[q] != Free && !Belongs(w0, q, d) && q != 0
      ensures w2[q] == w0[q] && q in m0 && q in m2 && m2[q] == m0[q]
    {
      assert w1[q] == w0[q] && !Belongs(w1, q, d);
    }
  }

  // ---- building an address space, or giving it all back ----

  /** Since (m0, w0) the only pages taken from the free list make up address space d. */
  ghost predicate FreshSpace(m0: Mem, w0: Owners, m: Mem, w: Owners, d: int) {
    && w0.Keys == w.Keys
    && forall q :: q in w0 ==>
         if w0[q] == Free then w[q] == Free || Belongs(w, q, d) else w[q] == w0[q] && q in m0 && q in m && m[q] == m0[q]
  }

  /** Everything in use is as it was, and exactly the same pages are free. */
  ghost predicate Restored(m0: Mem, w0: Owners, m: Mem, w: Owners) {
    w == w0 && forall q :: q in w0 && w0[q] != Free ==> q in m0 && q in m && m[q] == m0[q]
  }

  /** Nothing belongs to a space whose directory page is free. */
  lemma NoSpaceYet(m0: Mem, w0: Owners, d: int, q: int)
    requires Inv(m0, w0) && d in w0 && w0[d] == Free && q in w0 && w0[q] != Free
    ensures !Belongs(w0, q, d)
  {
  }

  lemma FreshMore(m0: Mem, w0: Owners, m1: Mem, w1: Owners, m2: Mem, w2: Owners, d: int)
    requires Inv(m0, w0) && d in w0 && w0[d] == Free && IsDir(w1, d)
    requires FreshSpace(m0, w0, m1, w1, d) && Keeps(m1, w1, m2, w2, d, 0) && OnlyTables(w1, w2, d, 0)
    ensures FreshSpace(m0, w0, m2, w2, d)
  {
    forall q | q in w0
      ensures if w0[q] == Free then w2[q] == Free || Belongs(w2, q, d)
              else w2[q] == w0[q] && q in m0 && q in m2 && m2[q] == m0[q]
    {
      assert q != 0 by { assert q in w0 && PagesExist(m0, w0); }
      if w0[q] != Free {
        NoSpaceYet(m0, w0, d, q);
        assert w1[q] == w0[q] && !Belongs(w1, q, d);
      }
    }
  }

  lemma FreshFreed(m0: Mem, w0: Owners, m1: Mem, w1: Owners, m2: Mem, w2: Owners, d: int)
    requires Inv(m0, w0) && d in w0 && w0[d] == Free
    requires FreshSpace(m0, w0, m1, w1, d) && SpaceFreed(w1, w2, d) && Keeps(m1, w1, m2, w2, d, 0)
    ensures Restored(m0, w0, m2, w2)
  {
    forall q | q in w0
      ensures w2[q] == w0[q] && (w0[q] != Free ==> q in m0 && q in m2 && m2[q] == m0[q])
    {
      if w0[q] != Free {
        NoSpaceYet(m0, w0, d, q);
        assert w1[q] == w0[q];
        assert !Belongs(w1, q, d);
      }
    }
    assert w2 == w0;
  }

  /** n pages from virtual page v map to n pages from p. */
  datatype Region = Region(v: int, p: int, n: int, perm: int)

  /** kmap, in pages; `data` is the page number of the kernel's data segment. */
  function Kmap(data: int): (k: seq<Region>)
    ensures |k| == 4
  {
    [Region(KERNVPN, 0, 256, 2),                                      // I/O space
     Region(KERNVPN + 256, 256, data - (KERNVPN + 256), 0),           // kernel text and read-only data
     Region(data, data - KERNVPN, KERNVPN + 57344 - data, 2),         // kernel data and memory, up to PHYSTOP
     Region(0xFE000, 0xFE000, 0x2000, 2)]                             // devices
  }

  /** The entry of v once the first k regions are mapped. */
  function KmapEntry(data: int, k: int, v: int): int
    requires 0 <= k <= 4
  {
    if k == 0 then 0
    else
      var r := Kmap(data)[k - 1];
      if r.v <= v < r.v + r.n then Pte(r.p + (v - r.v), r.perm) else KmapEntry(data, k - 1, v)
  }

  /** Directory entry i is needed for one of the first k regions. */
  ghost predicate KmapDir(data: int, k: int, i: int)
    requires 0 <= k <= 4
  {
    k > 0 && (Under(Kmap(data)[k - 1].v, Kmap(data)[k - 1].v + Kmap(data)[k - 1].n, i) || KmapDir(data, k - 1, i))
  }

  lemma KmapUnder(data: int, k: int, i: int)
    requires KERNVPN + 256 < data < KERNVPN + 57344 && 0 <= k < 4
    requires Under(Kmap(data)[k].v, Kmap(data)[k].v + Kmap(data)[k].n, i)
    ensures KernelDir(i)
  {
    assert 512 <= data / 1024 <= 567 && 512 <= (data - 1) / 1024 <= 567;
  }

  lemma {:induction false} KmapDirKernel(data: int, k: int, i: int)
    requires KERNVPN + 256 < data < KERNVPN + 57344 && 0 <= k <= 4 && KmapDir(data, k, i)
    ensures KernelDir(i)
  {
    if Under(Kmap(data)[k - 1].v, Kmap(data)[k - 1].v + Kmap(data)[k - 1].n, i) {
      KmapUnder(data, k - 1, i);
    } else {
      KmapDirKernel(data, k - 1, i);
    }
  }

  lemma KmapDirAll(data: int, i: int)
    requires KERNVPN + 256 < data < KERNVPN + 57344
    ensures KmapDir(data, 4, i) <==> KernelDir(i)
  {
    if KmapDir(data, 4, i) {
      KmapDirKernel(data, 4, i);
    }
    if KernelDir(i) {
      assert data / 1024 == (data - 1) / 1024 || data / 1024 == (data - 1) / 1024 + 1;
      assert KmapDir(data, 1, i) <==> i == 512;
      assert KmapDir(data, 2, i) <==> i == 512 || 512 <= i <= (data - 1) / 1024;
      assert KmapDir(data, 3, i) <==> KmapDir(data, 2, i) || data / 1024 <= i <= 567;
      assert KmapDir(data, 4, i) <==> KmapDir(data, 3, i) || 1016 <= i <= 1023;
    }
  }

  /** What every directory maps: nothing for the user, and kmap for the kernel. */
  function KernelEntry(data: int, v: int): int {
    if v < KERNVPN then 0
    else if v < KERNVPN + 57344 then Pte(v - KERNVPN, if KERNVPN + 256 <= v < data then 0 else 2)
    else if v >= 0xFE000 then Pte(v, 2)
    else 0
  }

  lemma KmapRegionFree(data: int, k: int, j: int, v: int)
    requires KERNVPN + 256 < data < KERNVPN + 57344 && 0 <= j <= k < 4
    requires Kmap(data)[k].v <= v < Kmap(data)[k].v + Kmap(data)[k].n
    ensures KmapEntry(data, j, v) == 0
  {
    if j > 0 { KmapRegionFree(data, k, j - 1, v); }
  }

  ghost predicate KmapUpTo(mem: Mem, d: int, data: int, k: int)
    requires 0 <= k <= 4
  {
    forall v :: 0 <= v < 1048576 ==> Entry(mem, d, v) == KmapEntry(data, k, v)
  }

  /** The space maps the kernel exactly as kmap says, and no user page. */
  ghost predicate KernelOnly(mem: Mem, d: int, data: int) {
    forall v :: 0 <= v < 1048576 ==> Entry(mem, d, v) == KernelEntry(data, v)
  }

  ghost predicate KmapTabled(mem: Mem, d: int, data: int, k: int)
    requires 0 <= k <= 4
  {
    forall i :: HasTable(mem, d, i) <==> KmapDir(data, k, i)
  }

  lemma KmapDone(mem: Mem, d: int, data: int)
    requires KERNVPN + 256 < data < KERNVPN + 57344 && KmapUpTo(mem, d, data, 4) && KmapTabled(mem, d, data, 4)
    ensures KernelOnly(mem, d, data)
    ensures (forall i :: HasTable(mem, d, i) <==> KernelDir(i)) && Tables(mem, d) == KERNELTABLES
  {
    forall v | 0 <= v < 1048576 { KmapIsKernelEntry(data, v); }
    forall i ensures HasTable(mem, d, i) <==> KernelDir(i) { KmapDirAll(data, i); }
    KernelTablesAll(mem, d);
  }

  lemma KmapRegionReady(mem: Mem, d: int, data: int, k: int)
    requires KERNVPN + 256 < data < KERNVPN + 57344 && 0 <= k < 4
    requires KmapUpTo(mem, d, data, k) && KmapTabled(mem, d, data, k)
    ensures var r := Kmap(data)[k];
            && KERNVPN <= r.v && 0 < r.n && r.v + r.n <= 1048576 && 0 <= r.perm < PGSIZE
            && NonePresent(mem, d, r.v, r.v + r.n)
            && (forall i :: HasTable(mem, d, i) ==> KernelDir(i))
            && forall i :: Under(r.v, r.v + r.n, i) ==> KernelDir(i)
  {
    var r := Kmap(data)[k];
    forall u | r.v <= u < r.v + r.n
      ensures !Present(Entry(mem, d, u))
    {
      KmapRegionFree(data, k, k, u);
    }
    forall i | HasTable(mem, d, i) ensures KernelDir(i) { KmapDirKernel(data, k, i); }
    forall i | Under(r.v, r.v + r.n, i) ensures KernelDir(i) { KmapUnder(data, k, i); }
  }

  lemma KmapMore(m0: Mem, m: Mem, d: int, data: int, k: int)
    requires KERNVPN + 256 < data < KERNVPN + 57344 && 0 <= k < 4
    requires KmapUpTo(m0, d, data, k) && KmapTabled(m0, d, data, k)
    requires var r := Kmap(data)[k];
             && 0 <= r.perm < PGSIZE && RangeMapped(m0, m, d, r.v, r.v + r.n, r.p, r.perm)
             && forall i :: HasTable(m, d, i) <==> HasTable(m0, d, i) || Under(r.v, r.v + r.n, i)
    ensures KmapUpTo(m, d, data, k + 1) && KmapTabled(m, d, data, k + 1)
  {
  }

  lemma KmapIsKernelEntry(data: int, v: int)
    requires KERNVPN + 256 < data < KERNVPN + 57344 && v < 1048576
    ensures KmapEntry(data, 4, v) == KernelEntry(data, v)
  {
    var k := Kmap(data);
    assert KmapEntry(data, 4, v) == if k[3].v <= v < k[3].v + k[3].n then Pte(k[3].p + (v - k[3].v), 2)
        else KmapEntry(data, 3, v);
    assert KmapEntry(data, 3, v) == if k[2].v <= v < k[2].v + k[2].n then Pte(k[2].p + (v - k[2].v), 2)
        else KmapEntry(data, 2, v);
    assert KmapEntry(data, 2, v) == if k[1].v <= v < k[1].v + k[1].n then Pte(k[1].p + (v - k[1].v), 0)
        else KmapEntry(data, 1, v);
    assert KmapEntry(data, 1, v) == if k[0].v <= v < k[0].v + k[0].n then Pte(k[0].p + (v - k[0].v), 2) else 0;
  }

  /** PGROUNDUP(a) as a page number. */
  function RoundUp(a: int): int {
    (a + PGSIZE - 1) / PGSIZE
  }

  /** PDX and PGADDR on 32-bit addresses. */
  function Pdx(a: int): int {
    a / 0x40_0000 % 1024
  }

  function PgAddr(dir: int, table: int, offset: int): int {
    (dir * 0x40_0000 + table * PGSIZE + offset) % UINT
  }

  /** The address deallocuvm's loop goes on with, past the whole table's range when there is
      none. */
  function Following(a: int, skip: bool): int {
    ((if skip then (PgAddr(Pdx(a) + 1, 0, 0) - PGSIZE) % UINT else a) + PGSIZE) % UINT
  }

  function NextPage(v: int, skip: bool): int {
    if skip then (v / 1024 + 1) * 1024 else v + 1
  }

  /** Below the kernel that never wraps round and never passes KERNBASE. */
  lemma FollowingIs(v: int, skip: bool)
    requires 0 <= v < KERNVPN
    ensures v * PGSIZE / PGSIZE == v && Following(v * PGSIZE, skip) == NextPage(v, skip) * PGSIZE
    ensures v < NextPage(v, skip) <= KERNVPN
  {
    var a, i := v * PGSIZE, v / 1024;
    assert a / 0x40_0000 == i && 0 <= i < 512;
    assert Pdx(a) == i;
    assert PgAddr(i + 1, 0, 0) == (i + 1) * 0x40_0000;
  }

  lemma RoundUpIff(a: int, v: int)
    ensures v * PGSIZE < a <==> v < RoundUp(a)
  {
  }

  function Min(a: int, b: int): int {
    if a < b then a else b
  }

  // ---- fork ----

  /** Pages below n are copied: mapped alike, with the same flags and contents; the rest of user space is empty. */
  ghost predicate Copied(m0: Mem, parent: int, m: Mem, d: int, n: int) {
    forall v :: 0 <= v < KERNVPN ==>
      if v < n && Present(Entry(m0, parent, v))
      then Present(Entry(m, d, v)) && FlagsOf(Entry(m, d, v)) == FlagsOf(Entry(m0, parent, v))
          && UserPage(m, d, v) == UserPage(m0, parent, v)
      else Entry(m, d, v) == 0
  }

  /** The parent has a page below n under directory entry i. */
  ghost predicate Touched(m: Mem, parent: int, n: int, i: int) {
    exists u :: 0 <= u < n && u < KERNVPN && u / 1024 == i && Present(Entry(m, parent, u))
  }

  /** How many pages the parent has below n. */
  ghost function Pages(m: Mem, parent: int, n: int): (k: int)
    requires n <= KERNVPN
    ensures k >= 0
    decreases n
  {
    if n <= 0 then 0 else Pages(m, parent, n - 1) + if Present(Entry(m, parent, n - 1)) then 1 else 0
  }

  /** What copying the pages below n takes from the free list: the pages and their tables. */
  ghost function CopyCost(m: Mem, parent: int, n: int): (k: int)
    requires n <= KERNVPN
    ensures k >= 0
  {
    Pages(m, parent, n) + Count(i => Touched(m, parent, n, i), 0, KERNPD)
  }

  lemma TouchedMore(m: Mem, parent: int, n: int, i: int)
    requires 0 <= n < KERNVPN
    ensures Touched(m, parent, n + 1, i) <==>
              Touched(m, parent, n, i) || (n / 1024 == i && Present(Entry(m, parent, n)))
  {
    if Touched(m, parent, n + 1, i) {
      var u :| 0 <= u < n + 1 && u < KERNVPN && u / 1024 == i && Present(Entry(m, parent, u));
      assert u == n || Touched(m, parent, n, i);
    }
    if Touched(m, parent, n, i) {
      var u :| 0 <= u < n && u < KERNVPN && u / 1024 == i && Present(Entry(m, parent, u));
    }
  }

  lemma CopyCostMore(m: Mem, parent: int, n: int)
    requires 0 <= n < KERNVPN
    ensures CopyCost(m, parent, n + 1) == CopyCost(m, parent, n) +
              if !Present(Entry(m, parent, n)) then 0 else if Touched(m, parent, n, n / 1024) then 1 else 2
  {
    var f, g := i => Touched(m, parent, n, i), i => Touched(m, parent, n + 1, i);
    forall i ensures g(i) == (f(i) || (n / 1024 == i && Present(Entry(m, parent, n)))) { TouchedMore(m, parent, n, i); }
    if Present(Entry(m, parent, n)) && !Touched(m, parent, n, n / 1024) {
      CountOneMore(f, g, 0, KERNPD, n / 1024);
    } else {
      CountSame(f, g, 0, KERNPD);
    }
  }

  lemma {:induction false} PagesGrow(m: Mem, parent: int, n: int, k: int)
    requires 0 <= n <= k <= KERNVPN
    ensures Pages(m, parent, n) <= Pages(m, parent, k)
    decreases k - n
  {
    if n < k {
      PagesGrow(m, parent, n, k - 1);
    }
  }

  lemma TouchedGrows(m: Mem, parent: int, n: int, k: int, i: int)
    requires n <= k && Touched(m, parent, n, i)
    ensures Touched(m, parent, k, i)
  {
    var u :| 0 <= u < n && u < KERNVPN && u / 1024 == i && Present(Entry(m, parent, u));
    assert 0 <= u < k;
  }

  lemma CopyCostGrows(m: Mem, parent: int, n: int, k: int)
    requires 0 <= n <= k <= KERNVPN
    ensures CopyCost(m, parent, n) <= CopyCost(m, parent, k)
  {
    PagesGrow(m, parent, n, k);
    var f, g := i => Touched(m, parent, n, i), i => Touched(m, parent, k, i);
    forall i | f(i) ensures g(i) { TouchedGrows(m, parent, n, k, i); }
    CountMore(f, g, 0, KERNPD);
  }

  lemma CopyCostNone(m: Mem, parent: int)
    ensures CopyCost(m, parent, 0) == 0
    ensures forall i :: !Touched(m, parent, 0, i)
  {
    CountAll(i => Touched(m, parent, 0, i), 0, KERNPD, false);
  }

  /** The child being filled has the kernel's tables and those of the pages copied so far; the
      free list has paid for it all. */
  ghost predicate CopyPaid(m0: Mem, free0: seq<int>, m: Mem, free: seq<int>, parent: int, d: int, n: int)
    requires n <= KERNVPN
  {
    && (forall i :: HasTable(m, d, i) <==> KernelDir(i) || Touched(m0, parent, n, i))
    && |free| + 1 + KERNELTABLES + CopyCost(m0, parent, n) == |free0|
  }

  lemma CopyPaidMore(m0: Mem, free0: seq<int>, m1: Mem, free1: seq<int>, m: Mem, free: seq<int>, parent: int, d: int,
      v: int)
    requires 0 <= v < KERNVPN && CopyPaid(m0, free0, m1, free1, parent, d, v)
    requires Present(Entry(m0, parent, v)) && Paid(m1, free1, m, free, d, v, 1)
    ensures CopyPaid(m0, free0, m, free, parent, d, v + 1)
  {
    CopyCostMore(m0, parent, v);
    var x := v / 1024;
    assert 0 <= x < KERNPD && !KernelDir(x);
    forall i ensures HasTable(m, d, i) <==> KernelDir(i) || Touched(m0, parent, v + 1, i) {
      TouchedMore(m0, parent, v, i);
    }
  }

  lemma CopyPaidSkip(m0: Mem, free0: seq<int>, m: Mem, free: seq<int>, parent: int, d: int, v: int)
    requires 0 <= v < KERNVPN && CopyPaid(m0, free0, m, free, parent, d, v) && !Present(Entry(m0, parent, v))
    ensures CopyPaid(m0, free0, m, free, parent, d, v + 1)
  {
    CopyCostMore(m0, parent, v);
    forall i ensures Touched(m0, parent, v + 1, i) <==> Touched(m0, parent, v, i) {
      TouchedMore(m0, parent, v, i);
    }
  }

  /** Too little for page v is too little for the child. */
  lemma CopyShort(m0: Mem, free0: seq<int>, m: Mem, free: seq<int>, parent: int, d: int, v: int)
    requires 0 <= v < KERNVPN && CopyPaid(m0, free0, m, free, parent, d, v) && Present(Entry(m0, parent, v))
    requires |free| < if HasTable(m, d, v / 1024) then 1 else 2
    ensures |free0| < 1 + KERNELTABLES + CopyCost(m0, parent, v + 1)
  {
    CopyCostMore(m0, parent, v);
    var x := v / 1024;
    assert 0 <= x < KERNPD && !KernelDir(x);
  }

  /** Building a new space does not show in the others. */
  lemma FreshUntouched(m0: Mem, w0: Owners, m: Mem, w: Owners, d: int, e: int)
    requires Inv(m0, w0) && FreshSpace(m0, w0, m, w, d) && IsDir(w0, e)
    ensures SameEntries(m0, m, e)
    ensures forall v :: 0 <= v < KERNVPN ==> UserPage(m, e, v) == UserPage(m0, e, v)
  {
    forall v | 0 <= v < 1048576
      ensures Entry(m, e, v) == Entry(m0, e, v)
      ensures v < KERNVPN ==> UserPage(m, e, v) == UserPage(m0, e, v)
    {
      if Present(m0[e][v / 1024]) {
        EntryInTable(m0, w0, e, v);
        var t := TableFor(m0, e, v);
        if v < KERNVPN && Present(m0[t][v % 1024]) {
          assert PageOf(m0[t][v % 1024]) in w0;
        }
      }
    }
  }

  lemma CopiedMore(m0: Mem, parent: int, m1: Mem, w1: Owners, m2: Mem, w2: Owners, d: int, v: int, p: int)
    requires 0 <= v < KERNVPN && Inv(m1, w1) && IsDir(w1, d) && Copied(m0, parent, m1, d, v)
    requires Present(Entry(m0, parent, v)) && KeepsUsers(m1, w1, m2, w2, d)
    requires p in m2 && m2[p] == UserPage(m0, parent, v)
    requires Mapping(m1, m2, d, v, Pte(p, FlagsOf(Entry(m0, parent, v))))
    ensures Copied(m0, parent, m2, d, v + 1)
  {
    forall u | 0 <= u < v && Present(Entry(m0, parent, u))
      ensures UserPage(m2, d, u) == UserPage(m1, d, u)
    {
      UserPageOwned(m1, w1, d, u);
    }
    OddFlags(Entry(m0, parent, v));
  }

  lemma CopiedSkip(m0: Mem, parent: int, m: Mem, d: int, v: int)
    requires 0 <= v < KERNVPN && Copied(m0, parent, m, d, v) && !Present(Entry(m0, parent, v))
    ensures Copied(m0, parent, m, d, v + 1)
  {
  }

  lemma OddFlags(w: int)
    ensures FlagsOf(w) % 2 == w % 2
  {
  }

  lemma UserPageOwned(m: Mem, w: Owners, d: int, v: int)
    requires Inv(m, w) && IsDir(w, d) && 0 <= v < KERNVPN && Present(Entry(m, d, v))
    ensures PageOf(Entry(m, d, v)) in w && w[PageOf(Entry(m, d, v))] == User(d, v)
  {
    EntryInTable(m, w, d, v);
  }

  /** Below n the child reads exactly what the parent reads, mapped or not. */
  lemma CopiedReadsSame(m0: Mem, parent: int, m: Mem, d: int, n: int, v: int)
    requires Copied(m0, parent, m, d, n) && 0 <= v < n && v < KERNVPN
    ensures UserPage(m, d, v) == UserPage(m0, parent, v)
  {
    if !Present(Entry(m0, parent, v)) { assert Entry(m, d, v) == 0; }
  }

  // ---- page faults ----

  /** trap.c's first test, with PGROUNDUP in 32-bit arithmetic: the address may be served. */
  predicate InRange(addr: int, sz: int)
    requires 0 <= addr < UINT
  {
    !((addr + PGSIZE - 1) % UINT / PGSIZE * PGSIZE > sz || addr / PGSIZE * PGSIZE >= KERNBASE)
  }

  lemma InRangeBelowKernel(addr: int, sz: int)
    requires 0 <= addr < UINT && InRange(addr, sz)
    ensures 0 <= addr / PGSIZE < KERNVPN
  {
  }

  /** Exactly which addresses pass. A legal address is refused when it lies past the
      first byte of a last page that is only partly below sz, and one illegal address
      is accepted: sz itself, when sz is page-aligned. */
  lemma InRangeExact(addr: int, sz: int)
    requires 0 <= addr < UINT && 0 <= sz <= KERNBASE
    ensures InRange(addr, sz) <==>
              (addr < sz && (addr % PGSIZE == 0 || addr / PGSIZE < sz / PGSIZE))
                  || (addr == sz && sz % PGSIZE == 0 && sz < KERNBASE)
  {
    var q, t := addr / PGSIZE, addr % PGSIZE;
    var n, u := sz / PGSIZE, sz % PGSIZE;
    assert addr == q * PGSIZE + t && sz == n * PGSIZE + u;
    if addr + PGSIZE - 1 < UINT {
      assert (addr + PGSIZE - 1) / PGSIZE == if t == 0 then q else q + 1 by {
        if t == 0 { assert (q * PGSIZE + PGSIZE - 1) / PGSIZE == q; }
        else { assert (q * PGSIZE + t + PGSIZE - 1) / PGSIZE == q + 1; }
      }
    }
  }

  /** With a 5000-byte process, touching byte 4500 is refused, though it is its own memory. */
  lemma LastPartialPageRefused()
    ensures !InRange(4500, 5000) && InRange(4096, 5000) && InRange(8192, 8192)
  {
  }

  datatype FaultResult = Killed | Served | RemapPanic

  ghost predicate SameUserMemory(m0: Mem, m: Mem, d: int) {
    forall v :: 0 <= v < KERNVPN ==> UserPage(m, d, v) == UserPage(m0, d, v)
  }

  /** A zeroed page where nothing was mapped changes no byte anyone can read. */
  lemma ZeroPageInvisible(m1: Mem, w1: Owners, m2: Mem, w2: Owners, d: int, v: int, p: int, perm: int)
    requires Inv(m1, w1) && IsDir(w1, d) && 0 <= v < KERNVPN && !Present(Entry(m1, d, v)) && 0 <= perm < PGSIZE
    requires KeepsUsers(m1, w1, m2, w2, d) && p in m2 && m2[p] == ZeroPage()
    requires Mapping(m1, m2, d, v, Pte(p, perm))
    ensures SameUserMemory(m1, m2, d)
  {
    forall u | 0 <= u < KERNVPN
      ensures UserPage(m2, d, u) == UserPage(m1, d, u)
    {
      if u != v && Present(Entry(m1, d, u)) { UserPageOwned(m1, w1, d, u); }
    }
  }

  lemma RestoredEntries(m0: Mem, w0: Owners, m: Mem, w: Owners, d: int)
    requires Inv(m0, w0) && Restored(m0, w0, m, w) && IsDir(w0, d)
    ensures SameEntries(m0, m, d) && SameUserMemory(m0, m, d)
  {
    forall v | 0 <= v < 1048576
      ensures Entry(m, d, v) == Entry(m0, d, v)
      ensures v < KERNVPN ==> UserPage(m, d, v) == UserPage(m0, d, v)
    {
      if Present(m0[d][v / 1024]) { EntryInTable(m0, w0, d, v); }
      if v < KERNVPN && Present(Entry(m0, d, v)) { UserPageOwned(m0, w0, d, v); }
    }
  }

  // ---- growing ----

  /** How many tables pages lo..hi-1 lack. */
  ghost function Missing(m: Mem, d: int, lo: int, hi: int): (n: int)
    ensures n >= 0
  {
    if lo < hi then Count(i => !HasTable(m, d, i), lo / 1024, (hi - 1) / 1024 + 1) else 0
  }

  lemma MissingMore(m: Mem, d: int, lo: int, v: int)
    requires lo <= v
    ensures Missing(m, d, lo, v + 1) == Missing(m, d, lo, v) +
              if HasTable(m, d, v / 1024) || Under(lo, v, v / 1024) then 0 else 1
  {
    var f := i => !HasTable(m, d, i);
    var a, b, c := lo / 1024, (v - 1) / 1024, v / 1024;
    assert a <= c && (b == c || b + 1 == c) && (lo < v ==> a <= b);
    assert Missing(m, d, lo, v + 1) == Count(f, a, c + 1) == Count(f, a, c) + if f(c) then 1 else 0;
    if lo < v {
      assert Missing(m, d, lo, v) == Count(f, a, b + 1);
    }
  }

  lemma {:induction false} MissingGrows(m: Mem, d: int, lo: int, v: int, hi: int)
    requires lo <= v <= hi
    ensures Missing(m, d, lo, v) <= Missing(m, d, lo, hi)
    decreases hi - v
  {
    if v < hi {
      MissingMore(m, d, lo, v);
      MissingGrows(m, d, lo, v + 1, hi);
    }
  }

  /** What mapping pages lo..hi-1 afresh takes from the free list. */
  ghost function GrowCost(m: Mem, d: int, lo: int, hi: int): int {
    hi - lo + Missing(m, d, lo, hi)
  }

  /** Pages lo..v-1 are mapped and paid for. */
  ghost predicate Grown(m0: Mem, free0: seq<int>, m: Mem, free: seq<int>, d: int, lo: int, v: int) {
    && (forall i :: HasTable(m, d, i) <==> HasTable(m0, d, i) || Under(lo, v, i))
    && |free| + GrowCost(m0, d, lo, v) == |free0|
  }

  lemma GrownMore(m0: Mem, free0: seq<int>, m1: Mem, free1: seq<int>, m: Mem, free: seq<int>, d: int, lo: int, v: int)
    requires 0 <= lo <= v < 1048576 && Grown(m0, free0, m1, free1, d, lo, v) && Paid(m1, free1, m, free, d, v, 1)
    ensures Grown(m0, free0, m, free, d, lo, v + 1)
  {
    UnderMore(lo, v);
    MissingMore(m0, d, lo, v);
  }

  lemma GrownShort(m0: Mem, free0: seq<int>, m: Mem, free: seq<int>, d: int, lo: int, v: int, hi: int)
    requires 0 <= lo <= v < hi && Grown(m0, free0, m, free, d, lo, v)
    requires |free| < if HasTable(m, d, v / 1024) then 1 else 2
    ensures |free0| < GrowCost(m0, d, lo, hi)
  {
    MissingMore(m0, d, lo, v);
    MissingGrows(m0, d, lo, v + 1, hi);
  }

  /** Outside lo..hi-1 every entry is as it was, and so is every user page. */
  ghost predicate SameOutside(m0: Mem, m: Mem, d: int, lo: int, hi: int) {
    && (forall v :: 0 <= v < 1048576 && !(lo <= v < hi) ==> Entry(m, d, v) == Entry(m0, d, v))
    && (forall v :: 0 <= v < KERNVPN && !(lo <= v < hi) ==> UserPage(m, d, v) == UserPage(m0, d, v))
  }

  lemma ReleasedOutside(m1: Mem, w1: Owners, m2: Mem, w2: Owners, d: int, lo: int, hi: int)
    requires Inv(m1, w1) && IsDir(w1, d)
    requires Released(w1, w2, d, lo, hi) && Cleared(m1, m2, d, lo, hi) && KeepsRest(m1, w1, m2, w2, d)
    ensures SameOutside(m1, m2, d, lo, hi) && Keeps(m1, w1, m2, w2, d, 0)
  {
    forall v | 0 <= v < KERNVPN && !(lo <= v < hi)
      ensures UserPage(m2, d, v) == UserPage(m1, d, v)
    {
      if Present(Entry(m1, d, v)) { UserPageOwned(m1, w1, d, v); }
    }
  }

  /** Pages lo..v-1 of d have been mapped, and nothing else has happened. */
  ghost predicate PagesAdded(m0: Mem, w0: Owners, m: Mem, w: Owners, d: int, lo: int, v: int) {
    && Keeps(m0, w0, m, w, d, 0)
    && (forall u :: 0 <= u < 1048576 && lo <= u < v ==> Present(Entry(m, d, u)))
    && (forall u :: 0 <= u < 1048576 && !(lo <= u < v) ==> Entry(m, d, u) == Entry(m0, d, u))
  }

  lemma SameOutsideTwice(m0: Mem, m1: Mem, m2: Mem, d: int, lo: int, v: int, hi: int)
    requires v <= hi && SameUserMemory(m0, m1, d)
    requires forall u :: 0 <= u < 1048576 && !(lo <= u < v) ==> Entry(m1, d, u) == Entry(m0, d, u)
    requires SameOutside(m1, m2, d, lo, hi)
    ensures SameOutside(m0, m2, d, lo, hi)
  {
  }

  datatype MapResult = Mapped | NoMemory | Remap

  /** The outcomes of adding a zeroed page, as the process sees them. */
  lemma ZeroPageAdded(m0: Mem, w0: Owners, m: Mem, w: Owners, d: int, v: int, p: int, r: MapResult)
    requires Inv(m0, w0) && IsDir(w0, d) && 0 <= v < KERNVPN
    requires r.NoMemory? ==> Restored(m0, w0, m, w)
    requires r.Mapped? ==> !Present(Entry(m0, d, v)) && KeepsUsers(m0, w0, m, w, d) && p in m && m[p] == ZeroPage()
    requires r.Mapped? ==> Mapping(m0, m, d, v, Pte(p, PTE_WU))
    ensures r.NoMemory? ==> SameEntries(m0, m, d)
    ensures !r.Remap? ==> SameUserMemory(m0, m, d)
    ensures r.Mapped? ==> Present(Entry(m, d, v)) && FlagsOf(Entry(m, d, v)) == PTE_WU + 1
    ensures r.Mapped? ==> forall u :: 0 <= u < 1048576 && u != v ==> Entry(m, d, u) == Entry(m0, d, u)
  {
    if r.NoMemory? {
      RestoredEntries(m0, w0, m, w, d);
    } else if r.Mapped? {
      ZeroPageInvisible(m0, w0, m, w, d, v, p, PTE_WU);
    }
  }

  class Machine {
    var mem: Mem
    var freelist: int
    ghost var free: seq<int>
    ghost var owner: Owners

    ghost predicate Valid()
      reads this
    {
      Inv(mem, owner) && FreeOk(mem, owner, freelist, free)
    }

    constructor (mem: Mem, freelist: int, ghost free: seq<int>, ghost owner: Owners)
      requires Inv(mem, owner) && FreeOk(mem, owner, freelist, free)
      ensures Valid() && this.mem == mem && this.freelist == freelist && this.free == free && this.owner == owner
    {
      this.mem, this.freelist, this.free, this.owner := mem, freelist, free, owner;
    }

    /** The first free page, or 0. */
    method Kalloc() returns (p: int)
      requires Valid()
      modifies `freelist, `free, `owner
      ensures Valid()
      ensures p == 0 <==> old(free) == []
      ensures p == 0 ==> owner == old(owner) && free == old(free)
      ensures p != 0 ==>
                p == old(free)[0] && freelist == mem[p][0] && owner == old(owner)[p := Kernel] && free == old(free)[1..]
    {
      p := freelist;
      if p != 0 {
        ScribbleKeeps(mem, owner, p, mem[p], Kernel);
        assert mem[p := mem[p]] == mem;
        FreeOkPop(mem, owner, freelist, free);
        freelist := mem[p][0];
        free := free[1..];
        owner := owner[p := Kernel];
      }
    }

    /** Overwrites the page with junk and puts it at the head of the list. The caller
        must hold it: that it is not already free is never checked. */
    method Kfree(p: int)
      requires Valid() && p in owner && owner[p] == Kernel
      modifies this
      ensures Valid() && owner == old(owner)[p := Free] && free == [p] + old(free)
      ensures mem == old(mem)[p := Junk(old(freelist))]
    {
      ScribbleKeeps(mem, owner, p, Junk(freelist), Free);
      Push(p);
    }

    /** kfree's own work, whatever the page was used for. */
    method Push(p: int)
      requires FreeOk(mem, owner, freelist, free) && p in owner && owner[p] != Free && p in mem
      modifies this
      ensures FreeOk(mem, owner, freelist, free) && owner == old(owner)[p := Free] && free == [p] + old(free)
      ensures mem == old(mem)[p := Junk(old(freelist))]
    {
      FreeOkPush(mem, owner, freelist, free, p);
      mem := mem[p := Junk(freelist)];
      freelist := p;
      free := [p] + free;
      owner := owner[p := Free];
    }

    /** Makes sure there is a table for v, if `alloc` and memory allow. No entry of any
        address space reads differently afterwards. */
    method Walkpgdir(d: int, v: int, alloc: bool) returns (ok: bool)
      requires Valid() && IsDir(owner, d) && 0 <= v < 1048576
      modifies this
      ensures Valid() && IsDir(owner, d)
      ensures ok <==> Present(old(mem)[d][v / 1024]) || (alloc && old(free) != [])
      ensures ok ==> Present(mem[d][v / 1024])
      ensures !ok || Present(old(mem)[d][v / 1024]) ==>
                mem == old(mem) && owner == old(owner) && free == old(free) && freelist == old(freelist)
      ensures ok && !Present(old(mem)[d][v / 1024]) ==>
                && mem == TableAdded(old(mem), d, v / 1024, old(free)[0])
                && owner == old(owner)[old(free)[0] := Table(d, v / 1024)] && free == old(free)[1..]
    {
      if Present(mem[d][v / 1024]) {
        return true;
      }
      if !alloc {
        return false;
      }
      if free != [] { WalkAdds(mem, owner, freelist, free, d, v / 1024); }
      var t := Kalloc();
      if t == 0 {
        return false;
      }
      mem := mem[t := ZeroPage()];
      mem := mem[d := mem[d][v / 1024 := Pte(t, PTE_WU)]];
      owner := owner[t := Table(d, v / 1024)];
      return true;
    }

    /** walkpgdir with alloc set, as mappages uses it. */
    method EnsureTable(d: int, v: int) returns (ok: bool)
      requires Valid() && IsDir(owner, d) && 0 <= v < 1048576
      modifies this
      ensures Valid() && IsDir(owner, d)
      ensures !ok <==> !Present(old(mem)[d][v / 1024]) && old(free) == []
      ensures !ok ==> mem == old(mem) && owner == old(owner) && free == old(free)
      ensures ok ==> Present(mem[d][v / 1024]) && WalkedTo(old(mem), old(owner), mem, owner, d)
      ensures ok ==> OnlyTables(old(owner), owner, d, 0) && Paid(old(mem), old(free), mem, free, d, v, 0)
    {
      ok := Walkpgdir(d, v, true);
      if ok && !Present(old(mem)[d][v / 1024]) {
        WalkedAdding(old(mem), old(owner), d, v / 1024, old(free)[0]);
        PaidAdding(old(mem), old(free), d, v, old(free)[0]);
      } else if ok {
        PaidNothing(old(mem), old(free), d, v);
      }
    }

    /** mappages for one page. A user page changes hands from the kernel to d. */
    method MapPage(d: int, v: int, p: int, perm: int) returns (r: MapResult)
      requires Valid() && IsDir(owner, d) && 0 <= v < 1048576 && 0 <= perm < PGSIZE
      requires v < KERNVPN ==> p in owner && owner[p] == Kernel
      modifies this
      ensures Valid() && IsDir(owner, d)
      ensures r.Remap? <==> Present(Entry(old(mem), d, v))
      ensures r.NoMemory? <==> !Present(old(mem)[d][v / 1024]) && old(free) == []
      ensures r.NoMemory? ==> mem == old(mem) && owner == old(owner) && free == old(free)
      ensures r.Mapped? ==> (v < KERNVPN ==> p in owner && owner[p] == User(d, v) && mem[p] == old(mem)[p])
      ensures r.Mapped? ==> OnlyTables(old(owner), owner, d, if v < KERNVPN then p else 0)
      ensures r.Mapped? ==> Mapping(old(mem), mem, d, v, Pte(p, perm))
      ensures r.Mapped? ==> Keeps(old(mem), old(owner), mem, owner, d, if v < KERNVPN then p else 0)
      ensures r.Mapped? ==> KeepsUsers(old(mem), old(owner), mem, owner, d)
      ensures r.Mapped? ==> Paid(old(mem), old(free), mem, free, d, v, 0)
    {
      var ok := EnsureTable(d, v);
      if !ok {
        return NoMemory;
      }
      r := MapInTable(d, v, p, perm, old(mem), old(owner), old(free));
    }

    /** The rest of mappages once the walk has found or made the table. */
    method MapInTable(d: int, v: int, p: int, perm: int, ghost m0: Mem, ghost w0: Owners, ghost free0: seq<int>)
      returns (r: MapResult)
      requires Valid() && IsDir(owner, d) && IsDir(w0, d) && 0 <= v < 1048576 && 0 <= perm < PGSIZE
      requires Present(mem[d][v / 1024]) && (v < KERNVPN ==> p in owner && owner[p] == Kernel)
      requires WalkedTo(m0, w0, mem, owner, d) && Paid(m0, free0, mem, free, d, v, 0)
      modifies `mem, `owner
      ensures Valid() && IsDir(owner, d) && !r.NoMemory?
      ensures r.Remap? <==> Present(Entry(m0, d, v))
      ensures r.Mapped? ==> (v < KERNVPN ==> p in owner && mem[p] == old(mem)[p])
      ensures r.Mapped? ==> owner == if v < KERNVPN then old(owner)[p := User(d, v)] else old(owner)
      ensures r.Mapped? ==> Mapping(m0, mem, d, v, Pte(p, perm))
      ensures r.Mapped? ==> Keeps(m0, w0, mem, owner, d, if v < KERNVPN then p else 0)
      ensures r.Mapped? ==> KeepsUsers(m0, w0, mem, owner, d) && Paid(m0, free0, mem, free, d, v, 0)
    {
      ghost var m1, w1 := mem, owner;
      EntryInTable(mem, owner, d, v);
      var t := PageOf(mem[d][v / 1024]);
      if Present(mem[t][v % 1024]) {
        return Remap;
      }
      SetPresent(d, v, p, perm);
      PaidSame(m0, free0, m1, mem, free, d, v);
      WalkedThenSet(m0, w0, m1, w1, mem, owner, d, if v < KERNVPN then p else 0);
      return Mapped;
    }

    /** *pte = pa | perm | PTE_P, in a table that exists. */
    method SetPresent(d: int, v: int, p: int, perm: int)
      requires Valid() && IsDir(owner, d) && 0 <= v < 1048576 && 0 <= perm < PGSIZE
      requires Present(mem[d][v / 1024]) && !Present(Entry(mem, d, v))
      requires v < KERNVPN ==> p in owner && owner[p] == Kernel
      modifies `mem, `owner
      ensures Valid() && IsDir(owner, d)
      ensures v < KERNVPN ==> p in owner && mem[p] == old(mem)[p]
      ensures mem[d] == old(mem)[d]
      ensures owner == if v < KERNVPN then old(owner)[p := User(d, v)] else old(owner)
      ensures Mapping(old(mem), mem, d, v, Pte(p, perm))
      ensures Keeps(old(mem), old(owner), mem, owner, d, if v < KERNVPN then p else 0)
      ensures KeepsUsers(old(mem), old(owner), mem, owner, d)
    {
      var t := PageOf(mem[d][v / 1024]);
      EntryInTable(mem, owner, d, v);
      ghost var m := SetEntry(mem, d, v, Pte(p, perm));
      if v < KERNVPN {
        UserMappedFrame(mem, owner, d, v, p, perm);
        FreeOkFrame(mem, owner, freelist, free, m, owner[p := User(d, v)]);
        owner := owner[p := User(d, v)];
      } else {
        KernelMappedFrame(mem, owner, d, v, Pte(p, perm));
        FreeOkFrame(mem, owner, freelist, free, m, owner);
      }
      mem := mem[t := mem[t][v % 1024 := Pte(p, perm)]];
    }

    /** mappages for kernel addresses: pages lo..hi-1 map consecutive pages from p. When the
        free list is empty and a table is missing, those below `done` stay mapped. */
    method MapKernel(d: int, lo: int, hi: int, p: int, perm: int) returns (r: MapResult, ghost done: int)
      requires Valid() && IsDir(owner, d) && KERNVPN <= lo < hi <= 1048576 && 0 <= perm < PGSIZE
      requires NonePresent(mem, d, lo, hi)
      modifies this
      ensures Valid() && IsDir(owner, d) && !r.Remap? && lo <= done <= hi && (done == hi <==> r.Mapped?)
      ensures RangeMapped(old(mem), mem, d, lo, done, p, perm)
      ensures Keeps(old(mem), old(owner), mem, owner, d, 0) && OnlyTables(old(owner), owner, d, 0)
      ensures Tabled(old(mem), old(free), mem, free, d, lo, done)
      ensures r.NoMemory? ==> free == [] && !HasTable(mem, d, done / 1024)
    {
      var v := lo;
      r, done := Mapped, lo;
      while v < hi
        invariant lo <= v == done <= hi && r.Mapped? && Valid() && IsDir(owner, d)
        invariant RangeMapped(old(mem), mem, d, lo, v, p, perm)
        invariant Keeps(old(mem), old(owner), mem, owner, d, 0) && OnlyTables(old(owner), owner, d, 0)
        invariant Tabled(old(mem), old(free), mem, free, d, lo, v)
      {
        r := MapKernelPage(d, lo, v, p, perm, old(mem), old(owner), old(free));
        if r.NoMemory? {
          return;
        }
        v, done := v + 1, v + 1;
      }
    }

    method MapKernelPage(d: int, lo: int, v: int, p: int, perm: int, ghost m0: Mem, ghost w0: Owners,
        ghost free0: seq<int>)
      returns (r: MapResult)
      requires Valid() && IsDir(owner, d) && KERNVPN <= lo <= v < 1048576 && 0 <= perm < PGSIZE
      requires !Present(Entry(m0, d, v)) && RangeMapped(m0, mem, d, lo, v, p, perm)
      requires Keeps(m0, w0, mem, owner, d, 0) && OnlyTables(w0, owner, d, 0)
      requires Tabled(m0, free0, mem, free, d, lo, v)
      modifies this
      ensures Valid() && IsDir(owner, d) && !r.Remap?
      ensures Keeps(m0, w0, mem, owner, d, 0) && OnlyTables(w0, owner, d, 0)
      ensures r.NoMemory? ==> mem == old(mem) && free == old(free) == [] && !HasTable(mem, d, v / 1024)
      ensures r.Mapped? ==> RangeMapped(m0, mem, d, lo, v + 1, p, perm)
      ensures r.Mapped? ==> Tabled(m0, free0, mem, free, d, lo, v + 1)
    {
      ghost var m1, w1, f1 := mem, owner, free;
      assert !Present(Entry(mem, d, v));
      r := MapPage(d, v, p + (v - lo), perm);
      if r.Mapped? {
        KeepsTransitive(m0, w0, m1, w1, mem, owner, d, 0);
        TabledMore(m0, free0, m1, f1, mem, free, d, lo, v);
        RangeMore(m0, m1, mem, d, lo, v, p, perm);
      }
    }

    /** deallocuvm's work on one present page: the page goes to the free list, the entry is cleared. */
    method Unmap(d: int, v: int)
      requires Valid() && IsDir(owner, d) && 0 <= v < KERNVPN && Present(Entry(mem, d, v))
      modifies this
      ensures Valid() && IsDir(owner, d)
      ensures Released(old(owner), owner, d, v, v + 1) && Cleared(old(mem), mem, d, v, v + 1)
      ensures KeepsRest(old(mem), old(owner), mem, owner, d)
    {
      UnmappedFrame(mem, owner, freelist, free, d, v);
      var t := PageOf(mem[d][v / 1024]);
      var p := PageOf(mem[t][v % 1024]);
      mem := mem[t := mem[t][v % 1024 := 0]];
      owner := owner[p := Kernel];
      ghost var m1 := mem;
      ScribbleKeeps(mem, owner, p, Junk(freelist), Free);
      Kfree(p);
      assert SameEntries(m1, mem, d);
      UserUnique(old(mem), old(owner), d, v);
    }

    lemma UserUnique(m: Mem, w: Owners, d: int, v: int)
      requires Inv(m, w) && 0 <= v < KERNVPN
      ensures forall q :: q in w && w[q] == User(d, v) ==> q == PageOf(Entry(m, d, v))
    {
    }

    /** deallocuvm: every page from newsz, rounded up, to oldsz is released, exactly as
        if each were visited, although stretches without a page table are skipped. The loop
        steps through byte addresses in 32-bit arithmetic. */
    method Deallocuvm(d: int, oldsz: int, newsz: int) returns (sz: int)
      requires Valid() && IsDir(owner, d) && 0 <= newsz && 0 <= oldsz <= KERNBASE
      modifies this
      ensures Valid() && IsDir(owner, d)
      ensures sz == if newsz >= oldsz then oldsz else newsz
      ensures Released(old(owner), owner, d, RoundUp(newsz), RoundUp(oldsz))
      ensures Cleared(old(mem), mem, d, RoundUp(newsz), RoundUp(oldsz))
      ensures KeepsRest(old(mem), old(owner), mem, owner, d)
    {
      if newsz >= oldsz {
        return oldsz;
      }
      var a := (newsz + PGSIZE - 1) % UINT / PGSIZE * PGSIZE;
      ghost var lo, hi, v := RoundUp(newsz), RoundUp(oldsz), RoundUp(newsz);
      RoundUpIff(oldsz, v);
      while a < oldsz
        invariant a == v * PGSIZE <= KERNBASE && 0 <= lo <= v && lo <= hi && Valid() && IsDir(owner, d)
        invariant a < oldsz <==> v < hi
        invariant Released(old(owner), owner, d, lo, Min(v, hi)) && Cleared(old(mem), mem, d, lo, Min(v, hi))
        invariant KeepsRest(old(mem), old(owner), mem, owner, d)
        decreases KERNBASE - a
      {
        ghost var m1, w1 := mem, owner;
        ghost var next;
        a, next := DeallocStep(d, a, v);
        RoundUpIff(oldsz, next);
        ReleasedMore(old(mem), old(owner), m1, w1, mem, owner, d, lo, v, Min(next, hi));
        v := next;
      }
      sz := newsz;
    }

    /** One round of deallocuvm's loop on the page at address a, number v: it moves on, never
        past KERNBASE, and never round the end of the address space. */
    method DeallocStep(d: int, a: int, ghost v: int) returns (a': int, ghost next: int)
      requires Valid() && IsDir(owner, d) && 0 <= v < KERNVPN && a == v * PGSIZE
      modifies this
      ensures Valid() && IsDir(owner, d) && v < next <= KERNVPN && a' == next * PGSIZE
      ensures forall hi :: v < hi <= next ==> Released(old(owner), owner, d, v, hi) && Cleared(old(mem), mem, d, v, hi)
      ensures KeepsRest(old(mem), old(owner), mem, owner, d)
    {
      FollowingIs(v, true);
      FollowingIs(v, false);
      var pg := a / PGSIZE;
      var ok := Walkpgdir(d, pg, false);
      a', next := Following(a, !ok), NextPage(v, !ok);
      if !ok {
        NothingUnderMissingTable(mem, owner, d, v);
      } else {
        EntryInTable(mem, owner, d, v);
        var t := PageOf(mem[d][pg / 1024]);
        if Present(mem[t][pg % 1024]) {
          Unmap(d, pg);
        } else {
          UserUnique(mem, owner, d, v);
        }
      }
    }

    /** One round of freevm's loop. */
    method FreeTable(d: int, i: int, ghost m0: Mem, ghost w0: Owners)
      requires 0 <= i < NPDENTRIES && InvExcept(mem, owner, d, i) && FreeOk(mem, owner, freelist, free)
      requires TablesFreed(m0, w0, mem, owner, d, i)
      modifies this
      ensures InvExcept(mem, owner, d, i + 1) && FreeOk(mem, owner, freelist, free)
      ensures TablesFreed(m0, w0, mem, owner, d, i + 1)
    {
      FreeTableKeeps(mem, owner, d, i, Junk(freelist));
      if Present(mem[d][i]) {
        ghost var t := PageOf(mem[d][i]);
        assert forall q :: q in owner && owner[q] == Table(d, i) ==> q == t;
        Push(PageOf(mem[d][i]));
      } else {
        assert forall q :: q in owner && owner[q].Table? && owner[q].dir == d ==> owner[q].idx != i;
      }
    }

    /** freevm's loop and its final kfree, for a space without user pages. */
    method FreeTables(d: int)
      requires Valid() && IsDir(owner, d) && NoUsers(owner, d)
      modifies this
      ensures Valid() && SpaceFreed(old(owner), owner, d) && Keeps(old(mem), old(owner), mem, owner, d, 0)
    {
      var i := 0;
      while i < NPDENTRIES
        invariant 0 <= i <= NPDENTRIES && InvExcept(mem, owner, d, i) && FreeOk(mem, owner, freelist, free)
        invariant TablesFreed(old(mem), old(owner), mem, owner, d, i)
      {
        FreeTable(d, i, old(mem), old(owner));
        i := i + 1;
      }
      FreeDirKeeps(mem, owner, d, Junk(freelist));
      AllFreed(old(mem), old(owner), mem, owner, d, Junk(freelist));
      Push(d);
    }

    lemma AllFreed(m0: Mem, w0: Owners, m: Mem, w: Owners, d: int, x: Page)
      requires Inv(m0, w0) && IsDir(w0, d) && NoUsers(w0, d) && TablesFreed(m0, w0, m, w, d, NPDENTRIES)
      ensures SpaceFreed(w0, w[d := Free], d) && Keeps(m0, w0, m[d := x], w[d := Free], d, 0)
    {
    }

    /** freevm: every page of the space goes to the free list exactly once, and nothing
        else does. With dodeallocuvm 0 the user part must already be gone. */
    method Freevm(d: int, dodeallocuvm: bool)
      requires Valid() && IsDir(owner, d) && (dodeallocuvm || NoUsers(owner, d))
      modifies this
      ensures Valid() && SpaceFreed(old(owner), owner, d) && Keeps(old(mem), old(owner), mem, owner, d, 0)
    {
      if dodeallocuvm {
        var _ := Deallocuvm(d, KERNBASE, 0);
        ghost var m1, w1 := mem, owner;
        FreeTables(d);
        FreedThenFreed(old(mem), old(owner), m1, w1, mem, owner, d);
      } else {
        FreeTables(d);
      }
    }

    /** One kmap region for a space being built; on failure all of it is given back. */
    method MapRegion(d: int, lo: int, hi: int, p: int, perm: int, ghost m0: Mem, ghost w0: Owners) returns (ok: bool)
      requires Valid() && IsDir(owner, d) && KERNVPN <= lo < hi <= 1048576 && 0 <= perm < PGSIZE
      requires NonePresent(mem, d, lo, hi)
      requires Inv(m0, w0) && d in w0 && w0[d] == Free && FreshSpace(m0, w0, mem, owner, d) && NoUsers(owner, d)
      requires (forall i :: HasTable(mem, d, i) ==> KernelDir(i)) && forall i :: Under(lo, hi, i) ==> KernelDir(i)
      modifies this
      ensures Valid()
      ensures !ok ==> Restored(m0, w0, mem, owner) && |old(free)| + Tables(old(mem), d) < KERNELTABLES
      ensures ok ==> IsDir(owner, d) && FreshSpace(m0, w0, mem, owner, d) && NoUsers(owner, d)
      ensures ok ==> RangeMapped(old(mem), mem, d, lo, hi, p, perm)
      ensures ok ==> Tabled(old(mem), old(free), mem, free, d, lo, hi)
    {
      var r, done := MapKernel(d, lo, hi, p, perm);
      FreshMore(m0, w0, old(mem), old(owner), mem, owner, d);
      ok := r.Mapped?;
      if !ok {
        RegionShort(old(mem), old(free), mem, d, lo, done, hi);
        ghost var m1, w1 := mem, owner;
        Freevm(d, false);
        FreshFreed(m0, w0, m1, w1, mem, owner, d);
      }
    }

    /** setupkvm: a directory with the kernel part mapped and the user part empty, or 0 and
        everything given back, which happens exactly when fewer pages are free than the
        directory and the kernel's tables need. */
    method Setupkvm(data: int) returns (d: int)
      requires Valid() && KERNVPN + 256 < data < KERNVPN + 57344
      modifies this
      ensures Valid()
      ensures d == 0 <==> |old(free)| < 1 + KERNELTABLES
      ensures d == 0 ==> Restored(old(mem), old(owner), mem, owner)
      ensures d != 0 ==> IsDir(owner, d) && d in old(owner) && old(owner)[d] == Free
      ensures d != 0 ==> FreshSpace(old(mem), old(owner), mem, owner, d) && NoUsers(owner, d)
      ensures d != 0 ==> KernelOnly(mem, d, data)
      ensures d != 0 ==> |free| == |old(free)| - 1 - KERNELTABLES && forall i :: HasTable(mem, d, i) <==> KernelDir(i)
    {
      d := NewDirectory();
      if d == 0 {
        return 0;
      }
      var k := 0;
      while k < 4
        invariant 0 <= k <= 4 && Valid() && IsDir(owner, d)
        invariant FreshSpace(old(mem), old(owner), mem, owner, d) && NoUsers(owner, d)
        invariant KmapUpTo(mem, d, data, k) && KmapTabled(mem, d, data, k)
        invariant |free| + Tables(mem, d) + 1 == |old(free)|
      {
        var ok := MapKmap(d, data, k, old(mem), old(owner));
        if !ok { return 0; }
        k := k + 1;
      }
      KmapDone(mem, d, data);
    }

    /** One round of setupkvm's loop. */
    method MapKmap(d: int, data: int, k: int, ghost m0: Mem, ghost w0: Owners) returns (ok: bool)
      requires Valid() && IsDir(owner, d) && KERNVPN + 256 < data < KERNVPN + 57344 && 0 <= k < 4
      requires Inv(m0, w0) && d in w0 && w0[d] == Free && FreshSpace(m0, w0, mem, owner, d) && NoUsers(owner, d)
      requires KmapUpTo(mem, d, data, k) && KmapTabled(mem, d, data, k)
      modifies this
      ensures Valid()
      ensures !ok ==> Restored(m0, w0, mem, owner) && |old(free)| + Tables(old(mem), d) < KERNELTABLES
      ensures ok ==> IsDir(owner, d) && FreshSpace(m0, w0, mem, owner, d) && NoUsers(owner, d)
      ensures ok ==> KmapUpTo(mem, d, data, k + 1) && KmapTabled(mem, d, data, k + 1)
      ensures ok ==> |free| + Tables(mem, d) == |old(free)| + Tables(old(mem), d)
    {
      var reg := Kmap(data)[k];
      KmapRegionReady(mem, d, data, k);
      ok := MapRegion(d, reg.v, reg.v + reg.n, reg.p, reg.perm, m0, w0);
      if ok {
        KmapMore(old(mem), mem, d, data, k);
      }
    }

    /** setupkvm's kalloc and memset. */
    method NewDirectory() returns (d: int)
      requires Valid()
      modifies this
      ensures Valid()
      ensures d == 0 <==> old(free) == []
      ensures d == 0 ==> mem == old(mem) && owner == old(owner)
      ensures d != 0 ==> IsDir(owner, d) && d in old(owner) && old(owner)[d] == Free
      ensures d != 0 ==> FreshSpace(old(mem), old(owner), mem, owner, d) && NoUsers(owner, d)
      ensures d != 0 ==> (forall v :: 0 <= v < 1048576 ==> Entry(mem, d, v) == 0) && forall i :: !HasTable(mem, d, i)
      ensures d != 0 ==> |free| + Tables(mem, d) + 1 == |old(free)|
    {
      d := Kalloc();
      if d != 0 {
        NewDirKeeps(mem, owner, d);
        FreeOkFrame(mem, owner, freelist, free, mem[d := ZeroPage()], owner[d := Dir]);
        mem := mem[d := ZeroPage()];
        owner := owner[d := Dir];
        NoTables(mem, d);
      }
    }

    /** kalloc and fill. */
    method TakePage(x: Page) returns (p: int)
      requires Valid()
      modifies this
      ensures Valid()
      ensures p == 0 ==> mem == old(mem) && owner == old(owner) && old(free) == []
      ensures p != 0 ==> old(free) != [] && free == old(free)[1..]
      ensures p != 0 ==>
                p in old(owner) && old(owner)[p] == Free && owner == old(owner)[p := Kernel] && mem == old(mem)[p := x]
      ensures p != 0 ==> forall e :: IsDir(old(owner), e) ==> SameEntries(old(mem), mem, e)
    {
      p := Kalloc();
      if p != 0 {
        ScribbleKeeps(mem, owner, p, x, Kernel);
        FreeOkFrame(mem, owner, freelist, free, mem[p := x], owner);
        assert owner[p := Kernel] == owner;
        assert forall e :: IsDir(old(owner), e) ==> IsDir(owner, e);
        mem := mem[p := x];
      }
    }

    /** kalloc, fill, mappages, and kfree if that fails: how allocuvm, copyuvm and the
        page-fault handler add one user page. */
    method AddUserPage(d: int, v: int, x: Page, perm: int) returns (r: MapResult, ghost p: int)
      requires Valid() && IsDir(owner, d) && 0 <= v < KERNVPN && 0 <= perm < PGSIZE
      modifies this
      ensures r.Remap? <==> Present(Entry(old(mem), d, v)) && old(free) != []
      ensures !r.Remap? ==> Valid() && IsDir(owner, d)
      ensures r.NoMemory? <==> |old(free)| < if HasTable(old(mem), d, v / 1024) then 1 else 2
      ensures r.NoMemory? ==> Restored(old(mem), old(owner), mem, owner)
      ensures r.Mapped? ==> Paid(old(mem), old(free), mem, free, d, v, 1)
      ensures r.Mapped? ==> !Present(Entry(old(mem), d, v)) && p in old(owner) && old(owner)[p] == Free
      ensures r.Mapped? ==> p in owner && owner[p] == User(d, v) && mem[p] == x
      ensures r.Mapped? ==> Mapping(old(mem), mem, d, v, Pte(p, perm))
      ensures r.Mapped? ==>
                Keeps(old(mem), old(owner), mem, owner, d, 0) && KeepsUsers(old(mem), old(owner), mem, owner, d)
      ensures r.Mapped? ==> OnlyTables(old(owner), owner, d, p)
    {
      p := 0;
      var page := TakePage(x);
      if page == 0 {
        return NoMemory, 0;
      }
      p := page;
      ghost var m1, w1, f1 := mem, owner, free;
      r := MapPage(d, v, page, perm);
      if r.NoMemory? {
        Kfree(page);
        assert owner == old(owner);
      } else if r.Mapped? {
        TakenThenMapped(old(mem), old(owner), m1, w1, mem, owner, d, page);
        PaidTaken(old(mem), old(free), m1, f1, mem, free, d, v);
      }
    }

    lemma TakenThenMapped(m0: Mem, w0: Owners, m1: Mem, w1: Owners, m2: Mem, w2: Owners, d: int, p: int)
      requires p in w0 && w0[p] == Free && w1 == w0[p := Kernel] && PagesExist(m0, w0) && IsDir(w0, d)
      requires m0.Keys <= m1.Keys && forall q :: q in m0 && q != p ==> m1[q] == m0[q]
      requires Keeps(m1, w1, m2, w2, d, p) && KeepsUsers(m1, w1, m2, w2, d) && OnlyTables(w1, w2, d, p)
      ensures Keeps(m0, w0, m2, w2, d, 0) && KeepsUsers(m0, w0, m2, w2, d) && OnlyTables(w0, w2, d, p)
    {
      forall q | q in w0 && w0[q] != Free && !Belongs(w0, q, d)
        ensures w2[q] == w0[q] && q in m0 && q in m2 && m2[q] == m0[q]
      {
        assert w1[q] == w0[q] && !Belongs(w1, q, d);
      }
    }

    /** copyuvm: the child's user memory below sz is the parent's, page for page, with
        the same flags (so a guard page stays one); pages the parent never touched stay
        unmapped. It gives 0, with everything given back, exactly when fewer pages are free
        than the kernel part, the parent's pages and the tables for these need. */
    method Copyuvm(parent: int, sz: int, data: int) returns (d: int)
      requires Valid() && IsDir(owner, parent) && 0 <= sz <= KERNBASE && KERNVPN + 256 < data < KERNVPN + 57344
      modifies this
      ensures Valid()
      ensures RoundUp(sz) <= KERNVPN
                && (d == 0 <==> |old(free)| < 1 + KERNELTABLES + CopyCost(old(mem), parent, RoundUp(sz)))
      ensures d == 0 ==> Restored(old(mem), old(owner), mem, owner)
      ensures d != 0 ==> IsDir(owner, d) && FreshSpace(old(mem), old(owner), mem, owner, d)
      ensures d != 0 ==> Copied(old(mem), parent, mem, d, RoundUp(sz))
    {
      d := Setupkvm(data);
      CopyCostNone(old(mem), parent);
      CopyCostGrows(old(mem), parent, 0, RoundUp(sz));
      if d == 0 {
        return 0;
      }
      var ok := CopyPages(parent, d, sz, old(mem), old(owner), old(free));
      if !ok {
        return 0;
      }
    }

    /** copyuvm's loop. */
    method CopyPages(parent: int, d: int, sz: int, ghost m0: Mem, ghost w0: Owners, ghost free0: seq<int>)
        returns (ok: bool)
      requires Valid() && IsDir(owner, d) && 0 <= sz <= KERNBASE
      requires Inv(m0, w0) && IsDir(w0, parent) && d in w0 && w0[d] == Free
      requires FreshSpace(m0, w0, mem, owner, d) && Copied(m0, parent, mem, d, 0)
      requires CopyPaid(m0, free0, mem, free, parent, d, 0)
      modifies this
      ensures Valid() && RoundUp(sz) <= KERNVPN
      ensures !ok ==> Restored(m0, w0, mem, owner) && |free0| < 1 + KERNELTABLES + CopyCost(m0, parent, RoundUp(sz))
      ensures ok ==> IsDir(owner, d) && FreshSpace(m0, w0, mem, owner, d) && Copied(m0, parent, mem, d, RoundUp(sz))
      ensures ok ==> CopyPaid(m0, free0, mem, free, parent, d, RoundUp(sz))
    {
      var v := 0;
      ghost var n := RoundUp(sz);
      RoundUpIff(sz, 0);
      while v * PGSIZE < sz
        invariant 0 <= v <= n <= KERNVPN && (v * PGSIZE < sz <==> v < n)
        invariant Valid() && IsDir(owner, d) && FreshSpace(m0, w0, mem, owner, d)
        invariant Copied(m0, parent, mem, d, v) && CopyPaid(m0, free0, mem, free, parent, d, v)
        decreases n - v
      {
        CopyCostGrows(m0, parent, v + 1, n);
        ok := CopyPage(parent, d, v, m0, w0, free0);
        if !ok {
          return;
        }
        v := v + 1;
        RoundUpIff(sz, v);
      }
      ok := true;
    }

    /** One round of copyuvm's loop. */
    method CopyPage(parent: int, d: int, v: int, ghost m0: Mem, ghost w0: Owners, ghost free0: seq<int>)
        returns (ok: bool)
      requires Valid() && IsDir(owner, d) && 0 <= v < KERNVPN
      requires Inv(m0, w0) && IsDir(w0, parent) && d in w0 && w0[d] == Free
      requires FreshSpace(m0, w0, mem, owner, d) && Copied(m0, parent, mem, d, v)
      requires CopyPaid(m0, free0, mem, free, parent, d, v)
      modifies this
      ensures Valid()
      ensures !ok ==> Restored(m0, w0, mem, owner) && |free0| < 1 + KERNELTABLES + CopyCost(m0, parent, v + 1)
      ensures ok ==> IsDir(owner, d) && FreshSpace(m0, w0, mem, owner, d) && Copied(m0, parent, mem, d, v + 1)
      ensures ok ==> CopyPaid(m0, free0, mem, free, parent, d, v + 1)
    {
      FreshUntouched(m0, w0, mem, owner, d, parent);
      assert IsDir(owner, parent);
      var pte := ReadEntry(parent, v);
      ok := true;
      if Present(pte) {
        UserPageOwned(mem, owner, parent, v);
        ok := AddCopy(parent, d, v, pte, m0, w0, free0);
      } else {
        CopiedSkip(m0, parent, mem, d, v);
        CopyPaidSkip(m0, free0, mem, free, parent, d, v);
      }
    }

    /** The entry for v as walkpgdir without alloc finds it; no table reads as 0. */
    method ReadEntry(d: int, v: int) returns (pte: int)
      requires Valid() && IsDir(owner, d) && 0 <= v < 1048576
      modifies this
      ensures mem == old(mem) && owner == old(owner) && free == old(free) && freelist == old(freelist)
      ensures pte == Entry(mem, d, v)
    {
      var ok := Walkpgdir(d, v, false);
      if !ok {
        return 0;
      }
      EntryInTable(mem, owner, d, v);
      pte := mem[PageOf(mem[d][v / 1024])][v % 1024];
    }

    method AddCopy(parent: int, d: int, v: int, pte: int, ghost m0: Mem, ghost w0: Owners, ghost free0: seq<int>)
      returns (ok: bool)
      requires Valid() && IsDir(owner, d) && 0 <= v < KERNVPN
      requires Inv(m0, w0) && IsDir(w0, parent) && d in w0 && w0[d] == Free
      requires FreshSpace(m0, w0, mem, owner, d) && Copied(m0, parent, mem, d, v)
      requires CopyPaid(m0, free0, mem, free, parent, d, v)
      requires pte == Entry(m0, parent, v) && Present(pte) && PageOf(pte) in mem
                && mem[PageOf(pte)] == UserPage(m0, parent, v)
      modifies this
      ensures Valid()
      ensures !ok ==> Restored(m0, w0, mem, owner) && |free0| < 1 + KERNELTABLES + CopyCost(m0, parent, v + 1)
      ensures ok ==> IsDir(owner, d) && FreshSpace(m0, w0, mem, owner, d) && Copied(m0, parent, mem, d, v + 1)
      ensures ok ==> CopyPaid(m0, free0, mem, free, parent, d, v + 1)
    {
      ghost var m1, w1, f1 := mem, owner, free;
      var r; ghost var p;
      r, p := AddUserPage(d, v, mem[PageOf(pte)], FlagsOf(pte));
      ok := r.Mapped?;
      if ok {
        CopyPaidMore(m0, free0, m1, f1, mem, free, parent, d, v);
        CopiedMore(m0, parent, m1, w1, mem, owner, d, v, p);
        FreshPage(m0, w0, m1, w1, mem, owner, d, p);
      } else {
        CopyShort(m0, free0, m1, f1, parent, d, v);
        RestoredFresh(m0, w0, m1, w1, mem, owner, d);
        ghost var m2, w2 := mem, owner;
        Freevm(d, true);
        FreshFreed(m0, w0, m2, w2, mem, owner, d);
      }
    }

    lemma FreshPage(m0: Mem, w0: Owners, m1: Mem, w1: Owners, m2: Mem, w2: Owners, d: int, p: int)
      requires Inv(m0, w0) && d in w0 && w0[d] == Free && IsDir(w1, d) && IsDir(w2, d)
      requires FreshSpace(m0, w0, m1, w1, d) && Keeps(m1, w1, m2, w2, d, 0) && OnlyTables(w1, w2, d, p)
      requires p in w1 && w1[p] == Free && w2[p].User? && w2[p].dir == d
      ensures FreshSpace(m0, w0, m2, w2, d)
    {
      forall q | q in w0
        ensures if w0[q] == Free then w2[q] == Free || Belongs(w2, q, d)
                else w2[q] == w0[q] && q in m0 && q in m2 && m2[q] == m0[q]
      {
        if w0[q] != Free {
          NoSpaceYet(m0, w0, d, q);
          assert w1[q] == w0[q] && !Belongs(w1, q, d);
        }
      }
    }

    lemma RestoredFresh(m0: Mem, w0: Owners, m1: Mem, w1: Owners, m2: Mem, w2: Owners, d: int)
      requires FreshSpace(m0, w0, m1, w1, d) && Restored(m1, w1, m2, w2)
      ensures FreshSpace(m0, w0, m2, w2, d)
    {
    }

    /** The T_PGFLT arm. Whatever it decides, user memory reads as before; a served fault
        leaves the page mapped writable for the user. A fault on a page that is already
        mapped and is not a user protection fault runs into mappages' remap panic. */
    method PageFault(d: int, sz: int, addr: int, err: int) returns (r: FaultResult)
      requires Valid() && IsDir(owner, d) && 0 <= addr < UINT && 0 <= sz <= KERNBASE
      modifies this
      ensures r.RemapPanic? <==>
                && InRange(addr, sz) && err != 7 && err != 5 && old(free) != []
                && addr / PGSIZE < KERNVPN && Present(Entry(old(mem), d, addr / PGSIZE))
      ensures !r.RemapPanic? ==> Valid() && IsDir(owner, d) && SameUserMemory(old(mem), mem, d)
      ensures r.Killed? ==> Restored(old(mem), old(owner), mem, owner)
      ensures r.Killed? <==>
                || !InRange(addr, sz) || err == 7 || err == 5
                || |old(free)| < if HasTable(old(mem), d, addr / PGSIZE / 1024) then 1 else 2
      ensures r.Served? ==>
                InRange(addr, sz) && addr / PGSIZE < KERNVPN && FlagsOf(Entry(mem, d, addr / PGSIZE)) == PTE_WU + 1
      ensures r.Served? ==> forall v :: 0 <= v < 1048576 && v != addr / PGSIZE ==>
                Entry(mem, d, v) == Entry(old(mem), d, v)
      ensures r.Served? ==> Keeps(old(mem), old(owner), mem, owner, d, 0)
    {
      if !InRange(addr, sz) {
        return Killed;
      }
      if err == 7 || err == 5 {
        return Killed;
      }
      InRangeBelowKernel(addr, sz);
      var m := AddZeroPage(d, addr / PGSIZE);
      r := if m.Remap? then RemapPanic else if m.NoMemory? then Killed else Served;
    }

    /** A zeroed page at v, writable for the user. */
    method AddZeroPage(d: int, v: int) returns (r: MapResult)
      requires Valid() && IsDir(owner, d) && 0 <= v < KERNVPN
      modifies this
      ensures r.Remap? <==> Present(Entry(old(mem), d, v)) && old(free) != []
      ensures !r.Remap? ==> Valid() && IsDir(owner, d) && SameUserMemory(old(mem), mem, d)
      ensures r.NoMemory? <==> |old(free)| < if HasTable(old(mem), d, v / 1024) then 1 else 2
      ensures r.NoMemory? ==> Restored(old(mem), old(owner), mem, owner) && SameEntries(old(mem), mem, d)
      ensures r.Mapped? ==> Paid(old(mem), old(free), mem, free, d, v, 1)
      ensures r.Mapped? ==> Present(Entry(mem, d, v)) && FlagsOf(Entry(mem, d, v)) == PTE_WU + 1
      ensures r.Mapped? ==> forall u :: 0 <= u < 1048576 && u != v ==> Entry(mem, d, u) == Entry(old(mem), d, u)
      ensures r.Mapped? ==> Keeps(old(mem), old(owner), mem, owner, d, 0)
    {
      ghost var p;
      r, p := AddUserPage(d, v, ZeroPage(), PTE_WU);
      ZeroPageAdded(old(mem), old(owner), mem, owner, d, v, p, r);
    }

    /** allocuvm's loop over the pages from lo up; v is the first one it did not map. */
    method AllocPages(d: int, lo: int, newsz: int) returns (r: MapResult, v: int)
      requires Valid() && IsDir(owner, d) && 0 <= lo <= RoundUp(newsz) && newsz < KERNBASE
      modifies this
      ensures lo <= v <= RoundUp(newsz) <= KERNVPN && (r.Mapped? <==> v == RoundUp(newsz))
      ensures r.Remap? ==> Present(Entry(old(mem), d, v))
      ensures !r.Remap? ==> Valid() && IsDir(owner, d) && SameUserMemory(old(mem), mem, d)
      ensures !r.Remap? ==> PagesAdded(old(mem), old(owner), mem, owner, d, lo, v)
      ensures r.NoMemory? ==> |old(free)| < GrowCost(old(mem), d, lo, RoundUp(newsz))
      ensures r.Mapped? ==> |free| + GrowCost(old(mem), d, lo, RoundUp(newsz)) == |old(free)|
    {
      v := lo;
      r := Mapped;
      ghost var hi := RoundUp(newsz);
      RoundUpIff(newsz, v);
      while v * PGSIZE < newsz
        invariant lo <= v <= hi <= KERNVPN && (v * PGSIZE < newsz <==> v < hi) && Valid() && IsDir(owner, d)
                  && r.Mapped?
        invariant SameUserMemory(old(mem), mem, d) && PagesAdded(old(mem), old(owner), mem, owner, d, lo, v)
        invariant Grown(old(mem), old(free), mem, free, d, lo, v)
        decreases hi - v
      {
        r := AllocPage(d, lo, v, hi, old(mem), old(owner), old(free));
        if !r.Mapped? {
          return;
        }
        v := v + 1;
        RoundUpIff(newsz, v);
      }
    }

    /** One round of allocuvm's loop. */
    method AllocPage(d: int, lo: int, v: int, ghost hi: int, ghost m0: Mem, ghost w0: Owners, ghost free0: seq<int>)
      returns (r: MapResult)
      requires Valid() && IsDir(owner, d) && 0 <= lo <= v < hi <= KERNVPN
      requires SameUserMemory(m0, mem, d) && PagesAdded(m0, w0, mem, owner, d, lo, v)
      requires Grown(m0, free0, mem, free, d, lo, v)
      modifies this
      ensures r.Remap? ==> Present(Entry(m0, d, v))
      ensures !r.Remap? ==> Valid() && IsDir(owner, d) && SameUserMemory(m0, mem, d)
      ensures r.NoMemory? ==> PagesAdded(m0, w0, mem, owner, d, lo, v) && |free0| < GrowCost(m0, d, lo, hi)
      ensures r.Mapped? ==> PagesAdded(m0, w0, mem, owner, d, lo, v + 1) && Grown(m0, free0, mem, free, d, lo, v + 1)
    {
      ghost var m1, w1, f1 := mem, owner, free;
      r := AddZeroPage(d, v);
      if r.NoMemory? {
        GrownShort(m0, free0, m1, f1, d, lo, v, hi);
        KeepsTransitive(m0, w0, m1, w1, mem, owner, d, 0);
      } else if r.Mapped? {
        GrownMore(m0, free0, m1, f1, mem, free, d, lo, v);
        KeepsTransitive(m0, w0, m1, w1, mem, owner, d, 0);
      }
    }

    /** allocuvm, the eager way to grow: it too leaves user memory reading as before, with every
        page of the new part mapped. It fails exactly when the free list is too short for the
        new pages and their tables, and then none of the new part is mapped and the rest of the
        space is as before. No other space notices. */
    method Allocuvm(d: int, oldsz: int, newsz: int) returns (r: MapResult, sz: int)
      requires Valid() && IsDir(owner, d) && 0 <= oldsz <= KERNBASE && 0 <= newsz < UINT
      modifies this
      ensures r.Remap? ==> exists v :: RoundUp(oldsz) <= v < RoundUp(newsz) && Present(Entry(old(mem), d, v))
      ensures !r.Remap? ==> Valid() && IsDir(owner, d) && Keeps(old(mem), old(owner), mem, owner, d, 0)
      ensures newsz >= KERNBASE ==> sz == 0 && mem == old(mem) && owner == old(owner)
      ensures newsz < oldsz && newsz < KERNBASE ==> sz == oldsz && mem == old(mem) && owner == old(owner)
      ensures r.Mapped? && oldsz <= newsz < KERNBASE ==>
                && sz == newsz && SameUserMemory(old(mem), mem, d)
                && (forall v :: RoundUp(oldsz) <= v < RoundUp(newsz) ==> Present(Entry(mem, d, v)))
                && |old(free)| >= GrowCost(old(mem), d, RoundUp(oldsz), RoundUp(newsz))
      ensures !r.Remap? ==> SameOutside(old(mem), mem, d, RoundUp(oldsz), RoundUp(newsz))
      ensures r.NoMemory? ==>
                && sz == 0 && NonePresent(mem, d, RoundUp(oldsz), RoundUp(newsz))
                && |old(free)| < GrowCost(old(mem), d, RoundUp(oldsz), RoundUp(newsz))
    {
      if newsz >= KERNBASE {
        return Mapped, 0;
      }
      if newsz < oldsz {
        return Mapped, oldsz;
      }
      var v;
      r, v := AllocPages(d, RoundUp(oldsz), newsz);
      sz := if r.Mapped? then newsz else 0;
      if r.NoMemory? {
        Unalloc(d, newsz, oldsz, v, old(mem), old(owner));
      }
    }

    /** allocuvm's way back: nothing between the two sizes stays mapped. */
    method Unalloc(d: int, newsz: int, oldsz: int, ghost v: int, ghost m0: Mem, ghost w0: Owners)
      requires Valid() && IsDir(owner, d) && 0 <= oldsz <= newsz < KERNBASE && RoundUp(oldsz) <= v <= RoundUp(newsz)
      requires SameUserMemory(m0, mem, d) && PagesAdded(m0, w0, mem, owner, d, RoundUp(oldsz), v)
      modifies this
      ensures Valid() && IsDir(owner, d) && Keeps(m0, w0, mem, owner, d, 0)
      ensures NonePresent(mem, d, RoundUp(oldsz), RoundUp(newsz))
      ensures SameOutside(m0, mem, d, RoundUp(oldsz), RoundUp(newsz))
    {
      ghost var m1, w1 := mem, owner;
      var _ := Deallocuvm(d, newsz, oldsz);
      ClearedGone(m1, mem, d, RoundUp(oldsz), RoundUp(newsz));
      ReleasedOutside(m1, w1, mem, owner, d, RoundUp(oldsz), RoundUp(newsz));
      SameOutsideTwice(m0, m1, mem, d, RoundUp(oldsz), v, RoundUp(newsz));
      KeepsTransitive(m0, w0, m1, w1, mem, owner, d, 0);
    }

    /** exit's deallocuvm, then wait's kfree of the kernel stack and freevm without the
        user part: each page of the process goes to the free list exactly once. */
    method TearDown(d: int, kstack: int)
      requires Valid() && IsDir(owner, d) && kstack in owner && owner[kstack] == Kernel
      modifies this
      ensures Valid() && owner.Keys == old(owner).Keys
      ensures forall q :: q in old(owner) ==>
                owner[q] == if Belongs(old(owner), q, d) || q == kstack then Free else old(owner)[q]
      ensures forall q :: q in old(owner) && owner[q] != Free ==> mem[q] == old(mem)[q]
    {
      var _ := Deallocuvm(d, KERNBASE, 0);
      ghost var m1, w1 := mem, owner;
      Kfree(kstack);
      ghost var m2, w2 := mem, owner;
      Freevm(d, false);
      TornDown(old(mem), old(owner), m1, w1, m2, w2, mem, owner, d, kstack);
    }

    lemma TornDown(m0: Mem, w0: Owners, m1: Mem, w1: Owners, m2: Mem, w2: Owners, m3: Mem, w3: Owners, d: int, k: int)
      requires Inv(m0, w0) && IsDir(w0, d) && k in w0 && w0[k] == Kernel
      requires Released(w0, w1, d, 0, KERNVPN) && KeepsRest(m0, w0, m1, w1, d)
      requires w2 == w1[k := Free] && m1.Keys <= m2.Keys && forall q :: q in m1 && q != k ==> m2[q] == m1[q]
      requires SpaceFreed(w2, w3, d) && Keeps(m2, w2, m3, w3, d, 0)
      ensures w3.Keys == w0.Keys
      ensures forall q :: q in w0 ==> w3[q] == if Belongs(w0, q, d) || q == k then Free else w0[q]
      ensures forall q :: q in w0 && w3[q] != Free ==> q in m0 && q in m3 && m3[q] == m0[q]
    {
      forall q | q in w0
        ensures w3[q] == (if Belongs(w0, q, d) || q == k then Free else w0[q])
                  && (w3[q] != Free ==> q in m0 && q in m3 && m3[q] == m0[q])
      {
        if !Belongs(w0, q, d) && q != k {
          assert w2[q] == w0[q] && !Belongs(w2, q, d);
        }
      }
    }
  }
}
