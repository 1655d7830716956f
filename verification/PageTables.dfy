/** Two-level page tables in physical memory, and which structure owns each page. */
module PageTables {
  const PGSIZE := 4096
  const NPDENTRIES := 1024
  const KERNPD := 512                 // PDX(KERNBASE)
  const KERNVPN := 524288             // KERNBASE / PGSIZE

  /** A page as 1024 words; kernel pointers to pages are physical page numbers here. */
  type Page = p: seq<int> | |p| == 1024 witness seq(1024, i => 0)
  type Mem = map<int, Page>

  function ZeroPage(): Page {
    seq(1024, i => 0)
  }

  // ---- directory and table entries: page number * PGSIZE + flags ----

  predicate Present(w: int) {
    w % 2 == 1
  }

  function PageOf(w: int): int {
    w / PGSIZE
  }

  function FlagsOf(w: int): int {
    w % PGSIZE
  }

  const PTE_WU := 6                   // PTE_W | PTE_U

  /** pa | perm | PTE_P */
  function Pte(page: int, perm: int): (w: int)
    requires 0 <= perm < PGSIZE
    ensures Present(w) && PageOf(w) == page
    ensures FlagsOf(w) == if perm % 2 == 1 then perm else perm + 1
  {
    page * PGSIZE + if perm % 2 == 1 then perm else perm + 1
  }

  // ---- ownership ----

  /** `Kernel` is a page in the kernel's hands: a kernel stack, or one just taken from the free list. */
  datatype Owner = Free | Dir | Table(dir: int, idx: int) | User(dir: int, vpn: int) | Kernel

  type Owners = map<int, Owner>

  ghost predicate PagesExist(mem: Mem, owner: Owners) {
    forall p :: p in owner ==> 0 < p && p in mem
  }

  ghost predicate IsDir(owner: Owners, d: int) {
    d in owner && owner[d] == Dir
  }

  /** A present directory entry names a table page that belongs to that entry. */
  ghost predicate DirsSound(mem: Mem, owner: Owners) {
    forall d, i :: IsDir(owner, d) && d in mem && 0 <= i < NPDENTRIES && Present(mem[d][i]) ==>
      PageOf(mem[d][i]) in owner && owner[PageOf(mem[d][i])] == Table(d, i)
  }

  /** Every table page is named by the directory entry it belongs to. */
  ghost predicate TablesHeld(mem: Mem, owner: Owners) {
    forall t :: t in owner && owner[t].Table? ==>
      && IsDir(owner, owner[t].dir) && owner[t].dir in mem && 0 <= owner[t].idx < NPDENTRIES
      && Present(mem[owner[t].dir][owner[t].idx]) && PageOf(mem[owner[t].dir][owner[t].idx]) == t
  }

  /** A present entry of a user table names a page that belongs to that virtual page. */
  ghost predicate TablesSound(mem: Mem, owner: Owners) {
    forall t, j ::
      t in owner && owner[t].Table? && owner[t].idx < KERNPD && t in mem && 0 <= j < 1024 && Present(mem[t][j]) ==>
        PageOf(mem[t][j]) in owner && owner[PageOf(mem[t][j])] == User(owner[t].dir, owner[t].idx * 1024 + j)
  }

  /** The table page that maps virtual page v, or 0. */
  function TableFor(mem: Mem, d: int, v: int): int
    requires d in mem && 0 <= v < 1048576
  {
    if Present(mem[d][v / 1024]) then PageOf(mem[d][v / 1024]) else 0
  }

  /** The entry for virtual page v, 0 when there is no table. */
  function Entry(mem: Mem, d: int, v: int): int
    requires 0 <= v < 1048576
  {
    if d in mem && TableFor(mem, d, v) in mem && TableFor(mem, d, v) != 0 then mem[TableFor(mem, d, v)][v % 1024] else 0
  }

  /** Every user page is mapped by the virtual page it belongs to. */
  ghost predicate UsersHeld(mem: Mem, owner: Owners) {
    forall p :: p in owner && owner[p].User? ==>
      && IsDir(owner, owner[p].dir) && 0 <= owner[p].vpn < KERNVPN
      && Present(Entry(mem, owner[p].dir, owner[p].vpn)) && PageOf(Entry(mem, owner[p].dir, owner[p].vpn)) == p
  }

  ghost predicate Inv(mem: Mem, owner: Owners) {
    && PagesExist(mem, owner)
    && DirsSound(mem, owner)
    && TablesHeld(mem, owner)
    && TablesSound(mem, owner)
    && UsersHeld(mem, owner)
  }

  // ---- how the primitive steps keep it ----

  /** The entry of v sits in the table its directory entry names. */
  lemma EntryInTable(mem: Mem, owner: Owners, d: int, v: int)
    requires Inv(mem, owner) && IsDir(owner, d) && 0 <= v < 1048576 && Present(mem[d][v / 1024])
    ensures var t := TableFor(mem, d, v);
            && t in owner && owner[t] == Table(d, v / 1024) && 0 < t && Entry(mem, d, v) == mem[t][v % 1024]
  {
  }

  /** Any page in the kernel's hands may be overwritten, freed, or taken into use. */
  lemma ScribbleKeeps(mem: Mem, owner: Owners, p: int, x: Page, o: Owner)
    requires Inv(mem, owner) && p in owner && (owner[p].Kernel? || owner[p].Free?) && (o.Kernel? || o.Free?)
    ensures Inv(mem[p := x], owner[p := o])
    ensures forall d, v :: IsDir(owner, d) && 0 <= v < 1048576 ==> Entry(mem[p := x], d, v) == Entry(mem, d, v)
  {
    var m, w := mem[p := x], owner[p := o];
    forall d, v | IsDir(owner, d) && 0 <= v < 1048576
      ensures Entry(m, d, v) == Entry(mem, d, v)
    {
      if Present(mem[d][v / 1024]) { EntryInTable(mem, owner, d, v); }
    }
  }

  /** A zeroed page becomes a page table. */
  lemma NewTableKeeps(mem: Mem, owner: Owners, d: int, i: int, t: int)
    requires Inv(mem, owner) && IsDir(owner, d) && 0 <= i < NPDENTRIES && !Present(mem[d][i])
    requires t in owner && owner[t].Kernel?
    ensures var m := mem[t := ZeroPage()][d := mem[d][i := Pte(t, PTE_WU)]];
            && Inv(m, owner[t := Table(d, i)])
            && (forall e, v :: IsDir(owner, e) && 0 <= v < 1048576 && !(e == d && v / 1024 == i) ==>
                 Entry(m, e, v) == Entry(mem, e, v))
            && (forall v :: 0 <= v < 1048576 && v / 1024 == i ==> Entry(m, d, v) == 0)
  {
    var m, w := mem[t := ZeroPage()][d := mem[d][i := Pte(t, PTE_WU)]], owner[t := Table(d, i)];
    forall e, v | IsDir(owner, e) && 0 <= v < 1048576
      ensures Entry(m, e, v) == if e == d && v / 1024 == i then 0 else Entry(mem, e, v)
    {
      if Present(mem[e][v / 1024]) { EntryInTable(mem, owner, e, v); }
    }
  }

  /** Memory after the entry of v has been set to w. */
  function SetEntry(mem: Mem, d: int, v: int, w: int): Mem
    requires d in mem && 0 <= v < 1048576 && TableFor(mem, d, v) in mem
  {
    var t := TableFor(mem, d, v);
    mem[t := mem[t][v % 1024 := w]]
  }

  /** Setting one entry changes that entry only. */
  lemma SetEntryFrame(mem: Mem, owner: Owners, d: int, v: int, w: int)
    requires Inv(mem, owner) && IsDir(owner, d) && 0 <= v < 1048576 && Present(mem[d][v / 1024])
    ensures TableFor(mem, d, v) in mem
    ensures forall e, u :: IsDir(owner, e) && 0 <= u < 1048576 ==>
              Entry(SetEntry(mem, d, v, w), e, u) == if e == d && u == v then w else Entry(mem, e, u)
  {
    EntryInTable(mem, owner, d, v);
    var t := TableFor(mem, d, v);
    forall e, u | IsDir(owner, e) && 0 <= u < 1048576
      ensures Entry(SetEntry(mem, d, v, w), e, u) == if e == d && u == v then w else Entry(mem, e, u)
    {
      if Present(mem[e][u / 1024]) {
        EntryInTable(mem, owner, e, u);
        if TableFor(mem, e, u) == t { assert e == d && u / 1024 == v / 1024; }
      }
    }
  }

  lemma MapUserKeeps(mem: Mem, owner: Owners, d: int, v: int, p: int, perm: int)
    requires Inv(mem, owner) && IsDir(owner, d) && 0 <= v < KERNVPN && Present(mem[d][v / 1024])
    requires !Present(Entry(mem, d, v)) && p in owner && owner[p].Kernel? && 0 <= perm < PGSIZE
    ensures TableFor(mem, d, v) in mem && Inv(SetEntry(mem, d, v, Pte(p, perm)), owner[p := User(d, v)])
  {
    EntryInTable(mem, owner, d, v);
    SetEntryFrame(mem, owner, d, v, Pte(p, perm));
  }

  lemma MapKernelKeeps(mem: Mem, owner: Owners, d: int, v: int, w: int)
    requires Inv(mem, owner) && IsDir(owner, d) && KERNVPN <= v < 1048576 && Present(mem[d][v / 1024])
    ensures TableFor(mem, d, v) in mem && Inv(SetEntry(mem, d, v, w), owner)
  {
    EntryInTable(mem, owner, d, v);
    SetEntryFrame(mem, owner, d, v, w);
  }

  /** Clearing a user entry gives its page back to the kernel. */
  lemma UnmapKeeps(mem: Mem, owner: Owners, d: int, v: int)
    requires Inv(mem, owner) && IsDir(owner, d) && 0 <= v < KERNVPN && Present(Entry(mem, d, v))
    ensures var p := PageOf(Entry(mem, d, v));
            && TableFor(mem, d, v) in mem && p in owner && owner[p] == User(d, v)
            && Inv(SetEntry(mem, d, v, 0), owner[p := Kernel])
  {
    assert Present(mem[d][v / 1024]);
    EntryInTable(mem, owner, d, v);
    SetEntryFrame(mem, owner, d, v, 0);
    var t := TableFor(mem, d, v);
    assert Present(mem[t][v % 1024]);
    assert owner[t].idx * 1024 + v % 1024 == v;
  }

  lemma NewDirKeeps(mem: Mem, owner: Owners, d: int)
    requires Inv(mem, owner) && d in owner && owner[d].Kernel?
    ensures var m := mem[d := ZeroPage()];
            && Inv(m, owner[d := Dir])
            && (forall e, v :: IsDir(owner, e) && 0 <= v < 1048576 ==> Entry(m, e, v) == Entry(mem, e, v))
            && (forall v :: 0 <= v < 1048576 ==> Entry(m, d, v) == 0)
  {
    ScribbleKeeps(mem, owner, d, ZeroPage(), Kernel);
  }

  // ---- freevm: the tables go one by one, then the directory ----

  ghost predicate NoUsers(owner: Owners, d: int) {
    forall p :: p in owner && owner[p].User? ==> owner[p].dir != d
  }

  /** Inv, except that the first n entries of d still name tables that are already freed. */
  ghost predicate InvExcept(mem: Mem, owner: Owners, d: int, n: int) {
    && PagesExist(mem, owner) && IsDir(owner, d) && NoUsers(owner, d)
    && (forall e, i ::
          IsDir(owner, e) && e in mem && 0 <= i < NPDENTRIES && Present(mem[e][i]) && !(e == d && i < n) ==>
            PageOf(mem[e][i]) in owner && owner[PageOf(mem[e][i])] == Table(e, i))
    && (forall t :: t in owner && owner[t].Table? && owner[t].dir == d ==> owner[t].idx >= n)
    && TablesHeld(mem, owner) && TablesSound(mem, owner) && UsersHeld(mem, owner)
  }

  lemma FreeTableKeeps(mem: Mem, owner: Owners, d: int, n: int, x: Page)
    requires InvExcept(mem, owner, d, n) && 0 <= n < NPDENTRIES
    ensures !Present(mem[d][n]) ==> InvExcept(mem, owner, d, n + 1)
    ensures Present(mem[d][n]) ==>
              var t := PageOf(mem[d][n]);
              && t in owner && owner[t] == Table(d, n) && t != d
              && InvExcept(mem[t := x], owner[t := Free], d, n + 1)
              && forall e, v :: IsDir(owner, e) && e != d && 0 <= v < 1048576 ==>
                   Entry(mem[t := x], e, v) == Entry(mem, e, v)
  {
    if Present(mem[d][n]) {
      var t := PageOf(mem[d][n]);
      var m := mem[t := x];
      forall e, v | IsDir(owner, e) && e != d && 0 <= v < 1048576
        ensures Entry(m, e, v) == Entry(mem, e, v)
      {
        if Present(mem[e][v / 1024]) { assert owner[PageOf(mem[e][v / 1024])] == Table(e, v / 1024); }
      }
    }
  }

  lemma FreeDirKeeps(mem: Mem, owner: Owners, d: int, x: Page)
    requires InvExcept(mem, owner, d, NPDENTRIES)
    ensures Inv(mem[d := x], owner[d := Free])
    ensures forall e, v :: IsDir(owner, e) && e != d && 0 <= v < 1048576 ==>
              Entry(mem[d := x], e, v) == Entry(mem, e, v)
  {
    var m := mem[d := x];
    forall e, v | IsDir(owner, e) && e != d && 0 <= v < 1048576
      ensures Entry(m, e, v) == Entry(mem, e, v)
    {
      if Present(mem[e][v / 1024]) { assert owner[PageOf(mem[e][v / 1024])] == Table(e, v / 1024); }
    }
  }
}
