/** Directories as fs.c reads and writes them: a file of 16-byte entries. */
module Dirs {
  import opened FsBlocks
  import Files

  const DIRSIZ := 14
  const DIRENT := 16

  /** A C string: the bytes before the terminating NUL. */
  type Name = s: seq<Byte> | 0 !in s witness []

  function Cut(name: Name): (c: Name) {
    if |name| <= DIRSIZ then name else name[..DIRSIZ]
  }

  /** The name in a 14-byte field: NUL-terminated unless it fills the field. */
  function FieldName(f: seq<Byte>): (n: Name) {
    if f == [] || f[0] == 0 then [] else [f[0]] + FieldName(f[1..])
  }

  /** strncpy(field, name, DIRSIZ). */
  function Field(name: Name): (f: seq<Byte>)
    ensures |f| == DIRSIZ
  {
    Cut(name) + seq(DIRSIZ - |Cut(name)|, k => 0)
  }

  lemma {:induction false} FieldNamePadded(n: Name, z: seq<Byte>)
    requires forall k :: 0 <= k < |z| ==> z[k] == 0
    ensures FieldName(n + z) == n
  {
    if n == [] {
      assert n + z == z;
    } else {
      assert (n + z)[1..] == n[1..] + z;
      FieldNamePadded(n[1..], z);
    }
  }

  lemma FieldRoundTrip(name: Name)
    ensures FieldName(Field(name)) == Cut(name)
  {
    FieldNamePadded(Cut(name), seq(DIRSIZ - |Cut(name)|, k => 0));
  }

  function Entries(data: seq<Byte>): nat {
    |data| / DIRENT
  }

  /** How a byte offset that is a multiple of 16 compares with the size. */
  lemma EntryOffset(data: seq<Byte>, k: int)
    requires 0 <= k
    ensures DIRENT * k + DIRENT <= |data| <==> k < Entries(data)
    ensures DIRENT * k < |data| < DIRENT * k + DIRENT ==> k == Entries(data) && |data| % DIRENT != 0
    ensures DIRENT * k == |data| ==> k == Entries(data) && |data| % DIRENT == 0
  {
  }

  function Inum(data: seq<Byte>, k: int): int
    requires 0 <= k < Entries(data)
  {
    var lo: int, hi: int := data[DIRENT * k], data[DIRENT * k + 1];
    lo + 256 * hi
  }

  function EntryName(data: seq<Byte>, k: int): Name
    requires 0 <= k < Entries(data)
  {
    FieldName(data[DIRENT * k + 2..DIRENT * k + DIRENT])
  }

  predicate Matches(data: seq<Byte>, k: int, name: Name)
    requires 0 <= k < Entries(data)
  {
    Inum(data, k) != 0 && EntryName(data, k) == name
  }

  /** The first matching entry at or after k, or the number of entries. */
  function Find(data: seq<Byte>, name: Name, k: int): (r: int)
    requires 0 <= k <= Entries(data)
    ensures k <= r <= Entries(data)
    decreases Entries(data) - k
  {
    if k == Entries(data) || Matches(data, k, name) then k else Find(data, name, k + 1)
  }

  lemma FindFirst(data: seq<Byte>, name: Name, k: int)
    requires 0 <= k <= Entries(data)
    ensures var r := Find(data, name, k);
            && (r < Entries(data) ==> Matches(data, r, name))
            && forall j :: k <= j < r ==> !Matches(data, j, name)
    decreases Entries(data) - k
  {
    if k < Entries(data) && !Matches(data, k, name) { FindFirst(data, name, k + 1); }
  }

  /** The directory as a finite map from names of at most 14 bytes. */
  function Lookup(data: seq<Byte>, name: Name): Files.Option<int> {
    var k := Find(data, name, 0);
    if k < Entries(data) then Files.Some(Inum(data, k)) else Files.None
  }

  function EncodeEntry(name: Name, inum: int): (e: seq<Byte>)
    requires 0 <= inum < 65536
    ensures |e| == DIRENT
  {
    [inum % 256, inum / 256] + Field(name)
  }

  /** The directory with entry k overwritten, or appended if k is one past the end. */
  function Put(data: seq<Byte>, k: int, name: Name, inum: int): (after: seq<Byte>)
    requires |data| % DIRENT == 0 && 0 <= k <= Entries(data) && 0 < inum < 65536
    ensures |after| % DIRENT == 0
    ensures Entries(after) == if k < Entries(data) then Entries(data) else k + 1
  {
    EntryOffset(data, k);
    Files.Splice(data, DIRENT * k, EncodeEntry(name, inum))
  }

  lemma PutSame(data: seq<Byte>, k: int, name: Name, inum: int)
    requires |data| % DIRENT == 0 && 0 <= k <= Entries(data) && 0 < inum < 65536
    ensures Inum(Put(data, k, name, inum), k) == inum && EntryName(Put(data, k, name, inum), k) == Cut(name)
  {
    var e := EncodeEntry(name, inum);
    var after := Put(data, k, name, inum);
    assert after[DIRENT * k..DIRENT * k + DIRENT] == e;
    assert after[DIRENT * k + 2..DIRENT * k + DIRENT] == e[2..];
    assert e[2..] == Field(name);
    FieldRoundTrip(name);
  }

  lemma PutOther(data: seq<Byte>, k: int, name: Name, inum: int, j: int)
    requires |data| % DIRENT == 0 && 0 <= k <= Entries(data) && 0 < inum < 65536
    requires 0 <= j < Entries(data) && j != k
    ensures Inum(Put(data, k, name, inum), j) == Inum(data, j)
    ensures EntryName(Put(data, k, name, inum), j) == EntryName(data, j)
  {
    var after := Put(data, k, name, inum);
    EntryOffset(data, j);
    assert if j < k then DIRENT * j + DIRENT <= DIRENT * k else DIRENT * k + DIRENT <= DIRENT * j;
    assert after[DIRENT * j..DIRENT * j + DIRENT] == data[DIRENT * j..DIRENT * j + DIRENT];
    assert after[DIRENT * j + 2..DIRENT * j + DIRENT] == data[DIRENT * j + 2..DIRENT * j + DIRENT];
  }

  lemma PutMatches(data: seq<Byte>, k: int, name: Name, inum: int, j: int, other: Name)
    requires |data| % DIRENT == 0 && 0 <= k <= Entries(data) && 0 < inum < 65536
    requires 0 <= j < Entries(Put(data, k, name, inum))
    requires k < Entries(data) ==> Inum(data, k) == 0
    ensures Matches(Put(data, k, name, inum), j, other) <==>
              if j == k then other == Cut(name) else Matches(data, j, other)
    ensures j == k && k < Entries(data) ==> !Matches(data, j, other)
  {
    if j == k { PutSame(data, k, name, inum); } else { PutOther(data, k, name, inum, j); }
  }

  /** The new name is bound to inum. */
  lemma LinkBinds(data: seq<Byte>, k: int, name: Name, inum: int)
    requires |data| % DIRENT == 0 && 0 <= k <= Entries(data) && 0 < inum < 65536
    requires k < Entries(data) ==> Inum(data, k) == 0
    requires Lookup(data, Cut(name)).None?
    ensures Lookup(Put(data, k, name, inum), Cut(name)) == Files.Some(inum)
  {
    var after := Put(data, k, name, inum);
    var a := Find(after, Cut(name), 0);
    FindFirst(after, Cut(name), 0);
    FindFirst(data, Cut(name), 0);
    PutMatches(data, k, name, inum, k, Cut(name));
    if a < Entries(after) { PutMatches(data, k, name, inum, a, Cut(name)); }
    PutSame(data, k, name, inum);
  }

  /** Every other name is found exactly where it was, or is still missing. */
  lemma LinkKeepsOthers(data: seq<Byte>, k: int, name: Name, inum: int, other: Name)
    requires |data| % DIRENT == 0 && 0 <= k <= Entries(data) && 0 < inum < 65536
    requires k < Entries(data) ==> Inum(data, k) == 0
    requires other != Cut(name)
    ensures Lookup(Put(data, k, name, inum), other) == Lookup(data, other)
  {
    var after := Put(data, k, name, inum);
    var b, c := Find(after, other, 0), Find(data, other, 0);
    FindFirst(after, other, 0);
    FindFirst(data, other, 0);
    if c < Entries(data) {
      PutMatches(data, k, name, inum, c, other);
      PutOther(data, k, name, inum, c);
    }
    if b < Entries(after) { PutMatches(data, k, name, inum, b, other); }
  }

  datatype LookupResult = Found(inum: int, off: int) | Missing | ShortRead

  /** Entry k is the first without an inode, or the one past the end when there is none. */
  ghost predicate FirstEmpty(d: seq<Byte>, k: int) {
    && 0 <= k <= Entries(d) && (k < Entries(d) ==> Inum(d, k) == 0)
    && forall j :: 0 <= j < k ==> Inum(d, j) != 0
  }

  class Dir {
    var data: seq<Byte>    // the directory file's contents

    constructor (d: seq<Byte>)
      ensures data == d
    {
      data := d;
    }

    /** strncmp(name, field, DIRSIZ) == 0: equality of the names as far as a field can hold them. */
    static method Namecmp(name: Name, field: seq<Byte>) returns (eq: bool)
      requires |field| == DIRSIZ
      ensures eq <==> FieldName(field) == Cut(name)
    {
      var k := 0;
      while k < DIRSIZ && k < |name| && name[k] == field[k]
        invariant 0 <= k <= DIRSIZ && k <= |name| && name[..k] == field[..k]
      {
        k := k + 1;
      }
      eq := k == DIRSIZ || (k == |name| && field[k] == 0);
      PrefixNames(name, field, k);
    }

    static lemma PrefixNames(name: Name, field: seq<Byte>, k: int)
      requires |field| == DIRSIZ && 0 <= k <= DIRSIZ && k <= |name| && name[..k] == field[..k]
      requires k < DIRSIZ && k < |name| ==> name[k] != field[k]
      ensures FieldName(field) == name[..k] + FieldName(field[k..])
      ensures FieldName(field) == Cut(name) <==> k == DIRSIZ || (k == |name| && field[k] == 0)
    {
      FieldNamePrefix(field, k);
      var rest := FieldName(field[k..]);
      assert FieldName(field) == name[..k] + rest;
      if k == DIRSIZ {
        assert field[k..] == [];
      } else if k == |name| {
        assert name[..k] == name;
        if field[k] != 0 { assert |rest| > 0; }
      } else {
        assert Cut(name)[k] == name[k];
        if field[k] != 0 { assert (name[..k] + rest)[k] == field[k]; }
        else { assert |name[..k] + rest| == k; }
      }
    }

    static lemma {:induction false} FieldNamePrefix(f: seq<Byte>, k: int)
      requires 0 <= k <= |f| && forall j :: 0 <= j < k ==> f[j] != 0
      ensures FieldName(f) == f[..k] + FieldName(f[k..])
    {
      if k > 0 {
        FieldNamePrefix(f[1..], k - 1);
        assert f[1..][k - 1..] == f[k..];
        assert f[..k] == [f[0]] + f[1..][..k - 1];
      }
    }

    /** One entry of dirlookup's loop: in use, and with the right name. */
    method EntryMatches(k: int, name: Name) returns (m: bool)
      requires 0 <= k < Entries(data)
      ensures m <==> Matches(data, k, Cut(name))
    {
      if Inum(data, k) == 0 {
        return false;
      }
      m := Namecmp(name, data[DIRENT * k + 2..DIRENT * k + DIRENT]);
    }

    /** dirlookup: the binding of the name, with the offset of its entry. ShortRead is
        panic("dirlookup read"), which takes a size that is not a multiple of 16. */
    method Dirlookup(name: Name) returns (r: LookupResult)
      ensures r.Found? ==> r.off == DIRENT * Find(data, Cut(name), 0) && Lookup(data, Cut(name)) == Files.Some(r.inum)
      ensures r.Found? <==> Lookup(data, Cut(name)).Some?
      ensures r.ShortRead? <==> Lookup(data, Cut(name)).None? && |data| % DIRENT != 0
    {
      var k := 0;
      EntryOffset(data, 0);
      while DIRENT * k < |data|
        invariant 0 <= k <= Entries(data) && Find(data, Cut(name), 0) == Find(data, Cut(name), k)
        invariant DIRENT * k >= |data| ==> k == Entries(data) && |data| % DIRENT == 0
        decreases Entries(data) - k
      {
        EntryOffset(data, k);
        if |data| - DIRENT * k < DIRENT {
          return ShortRead;
        }
        var eq := EntryMatches(k, name);
        if eq {
          return Found(Inum(data, k), DIRENT * k);
        }
        k := k + 1;
        EntryOffset(data, k);
      }
      return Missing;
    }

    /** dirlink's second loop: the first empty entry, or one past the end. */
    method FindEmpty() returns (k: int)
      requires |data| % DIRENT == 0
      ensures FirstEmpty(data, k)
    {
      k := 0;
      EntryOffset(data, 0);
      while DIRENT * k < |data|
        invariant 0 <= k <= Entries(data)
        invariant DIRENT * k >= |data| ==> k == Entries(data)
        invariant forall j :: 0 <= j < k ==> Inum(data, j) != 0
        decreases Entries(data) - k
      {
        EntryOffset(data, k);
        if Inum(data, k) == 0 {
          return;
        }
        k := k + 1;
        EntryOffset(data, k);
      }
    }

    /** dirlink: a name already present changes nothing; otherwise exactly one binding
        is added, in the first empty entry or else at the end, and no other name is found
        differently. Writing goes through writei,
        which refuses to grow a file past MAXFILE blocks: that is panic("dirlink"). */
    method Dirlink(name: Name, inum: int) returns (r: LinkResult)
      requires |data| % DIRENT == 0 && |data| <= MAXFILE * BSIZE && 0 < inum < 65536
      modifies this
      ensures r.Present? <==> Lookup(old(data), Cut(name)).Some?
      ensures !r.Linked? ==> data == old(data)
      ensures r.NoRoom? ==> |data| + DIRENT > MAXFILE * BSIZE && forall j :: 0 <= j < Entries(data) ==>
                Inum(data, j) != 0
      ensures r.Linked? ==> exists k :: FirstEmpty(old(data), k) && data == Put(old(data), k, name, inum)
      ensures r.Linked? ==> |data| % DIRENT == 0 && Lookup(data, Cut(name)) == Files.Some(inum)
      ensures r.Linked? ==> forall other: Name :: other != Cut(name) ==> Lookup(data, other) == Lookup(old(data), other)
    {
      var found := Dirlookup(name);
      if found.Found? {
        return Present;
      }
      var k := FindEmpty();
      EntryOffset(data, k);
      if DIRENT * k + DIRENT > MAXFILE * BSIZE {
        return NoRoom;
      }
      LinkBinds(data, k, name, inum);
      forall other: Name | other != Cut(name) { LinkKeepsOthers(data, k, name, inum, other); }
      data := Put(data, k, name, inum);
      return Linked;
    }
  }

  datatype LinkResult = Linked | Present | NoRoom
}
