/** The disk as the kernel sees it: numbered blocks of BSIZE bytes (128 words of
    four bytes), changed by one whole-block write at a time. */
module Storage {
  const WORDS := 128
  const LOGSIZE := 30
  const MAXOPBLOCKS := 10

  type Block = b: seq<int> | |b| == 128 witness seq(128, i => 0)

  function ZeroBlock(): Block {
    seq(128, i => 0)
  }

  /** Contents by block number; a block never written reads as zeros. */
  type Disk = map<int, Block>

  datatype Write = Write(blockno: int, data: Block)

  function Read(d: Disk, b: int): Block {
    if b in d then d[b] else ZeroBlock()
  }

  /** The disk after the writes `ws`, in order. */
  function Apply(d: Disk, ws: seq<Write>): Disk {
    if ws == [] then d
    else
      var w := ws[|ws| - 1];
      Apply(d, ws[..|ws| - 1])[w.blockno := w.data]
  }

  predicate Distinct(s: seq<int>) {
    forall i, j :: 0 <= i < j < |s| ==> s[i] != s[j]
  }

  lemma ApplySnoc(d: Disk, ws: seq<Write>, w: Write)
    ensures Apply(d, ws + [w]) == Apply(d, ws)[w.blockno := w.data]
  {
    assert (ws + [w])[..|ws|] == ws;
  }

  lemma ApplyConcat(d: Disk, a: seq<Write>, b: seq<Write>)
    ensures Apply(d, a + b) == Apply(Apply(d, a), b)
  {
    if b == [] {
      assert a + b == a;
    } else {
      var i := |b| - 1;
      assert a + b == (a + b[..i]) + [b[i]];
      ApplySnoc(d, a + b[..i], b[i]);
      ApplyConcat(d, a, b[..i]);
    }
  }

  /** A block no write names keeps its contents. */
  lemma ApplyElsewhere(d: Disk, ws: seq<Write>, b: int)
    requires forall i :: 0 <= i < |ws| ==> ws[i].blockno != b
    ensures Read(Apply(d, ws), b) == Read(d, b)
  {
    if ws != [] {
      ApplyElsewhere(d, ws[..|ws| - 1], b);
    }
  }

  /** A block holds what the last write to it put there. */
  lemma ApplyLast(d: Disk, ws: seq<Write>, k: int)
    requires 0 <= k < |ws|
    requires forall i :: k < i < |ws| ==> ws[i].blockno != ws[k].blockno
    ensures Read(Apply(d, ws), ws[k].blockno) == ws[k].data
  {
    if k < |ws| - 1 {
      ApplyLast(d, ws[..|ws| - 1], k);
    }
  }

  // ---- buffers pinned in memory over the disk ----

  /** What a reader gets for block `b`: the pinned buffer, or else the disk. */
  function View(d: Disk, dirty: map<int, Block>, b: int): Block {
    if b in dirty then dirty[b] else Read(d, b)
  }

  function Views(d: Disk, dirty: map<int, Block>, bs: seq<int>): (r: seq<Block>)
    ensures |r| == |bs|
    ensures forall i :: 0 <= i < |bs| ==> r[i] == View(d, dirty, bs[i])
  {
    seq<Block>(|bs|, i requires 0 <= i < |bs| => View(d, dirty, bs[i]))
  }
}
