/** The on-disk encodings of fs.h: little-endian words, bitmap bits and inodes
    inside 512-byte blocks. */
module FsBlocks {
  const BSIZE := 512
  const BPB := 4096          // bitmap bits per block
  const IPB := 8             // inodes per block
  const NDIRECT := 12
  const NINDIRECT := 128
  const MAXFILE := 140
  const UINT := 0x1_0000_0000

  type Byte = x: int | 0 <= x < 256
  type Block = b: seq<Byte> | |b| == 512 witness seq(512, i => 0)
  type Disk = map<int, Block>

  function Zero(): Block {
    seq(512, i => 0)
  }

  function Read(d: Disk, b: int): Block {
    if b in d then d[b] else Zero()
  }

  // ---- 32-bit words ----

  function WordBytes(w: int): seq<Byte>
    requires 0 <= w < UINT
  {
    [w % 256, w / 256 % 256, w / 65536 % 256, w / 16777216]
  }

  function WordOf(s: seq<Byte>): (w: int)
    requires |s| == 4
    ensures 0 <= w < UINT
  {
    var a: int, b: int, c: int, d: int := s[0], s[1], s[2], s[3];
    a + 256 * b + 65536 * c + 16777216 * d
  }

  function GetWord(b: Block, j: int): (w: int)
    requires 0 <= j < 128
    ensures 0 <= w < UINT
  {
    WordOf(b[4 * j..4 * j + 4])
  }

  function SetWord(b: Block, j: int, w: int): Block
    requires 0 <= j < 128 && 0 <= w < UINT
  {
    b[..4 * j] + WordBytes(w) + b[4 * j + 4..]
  }

  lemma WordRoundTrip(w: int)
    requires 0 <= w < UINT
    ensures WordOf(WordBytes(w)) == w
  {
    var q := w / 256;
    var r := q / 256;
    assert w / 65536 == r && w / 16777216 == r / 256;
  }

  lemma SetWordGet(b: Block, j: int, w: int, k: int)
    requires 0 <= j < 128 && 0 <= w < UINT && 0 <= k < 128
    ensures GetWord(SetWord(b, j, w), k) == if k == j then w else GetWord(b, k)
  {
    var c := SetWord(b, j, w);
    if k == j {
      assert c[4 * j..4 * j + 4] == WordBytes(w);
      WordRoundTrip(w);
    } else if k < j {
      assert c[4 * k..4 * k + 4] == b[4 * k..4 * k + 4];
    } else {
      assert c[4 * k..4 * k + 4] == b[4 * k..4 * k + 4];
    }
  }

  lemma ZeroWords(k: int)
    requires 0 <= k < 128
    ensures GetWord(Zero(), k) == 0
  {
  }

  // ---- bits ----

  function Pow2(k: nat): (p: int)
    ensures p >= 1
  {
    if k == 0 then 1 else 2 * Pow2(k - 1)
  }

  /** Bit k of v: v & (1 << k). */
  predicate NatBit(v: nat, k: nat) {
    if k == 0 then v % 2 == 1 else NatBit(v / 2, k - 1)
  }

  /** v | (1 << k) */
  function NatSet(v: nat, k: nat): (r: nat)
    ensures forall n: nat :: k < n && v < Pow2(n) ==> r < Pow2(n)
  {
    if k == 0 then v / 2 * 2 + 1
    else
      var h := NatSet(v / 2, k - 1);
      assert forall n: nat :: k < n && v < Pow2(n) ==> v / 2 < Pow2(n - 1);
      h * 2 + v % 2
  }

  /** v & ~(1 << k) */
  function NatClear(v: nat, k: nat): (r: nat)
    ensures r <= v
  {
    if k == 0 then v / 2 * 2 else NatClear(v / 2, k - 1) * 2 + v % 2
  }

  lemma NatSetBit(v: nat, k: nat, j: nat)
    ensures NatBit(NatSet(v, k), j) == (j == k || NatBit(v, j))
  {
    if k > 0 && j > 0 { NatSetBit(v / 2, k - 1, j - 1); }
  }

  lemma NatClearBit(v: nat, k: nat, j: nat)
    ensures NatBit(NatClear(v, k), j) == (j != k && NatBit(v, j))
  {
    if k > 0 && j > 0 { NatClearBit(v / 2, k - 1, j - 1); }
  }

  function ByteSet(v: Byte, k: int): Byte
    requires 0 <= k < 8
  {
    assert Pow2(8) == 256;
    NatSet(v, k)
  }

  predicate Bit(b: Block, k: int)
    requires 0 <= k < BPB
  {
    NatBit(b[k / 8], k % 8)
  }

  function SetBit(b: Block, k: int): Block
    requires 0 <= k < BPB
  {
    b[k / 8 := ByteSet(b[k / 8], k % 8)]
  }

  function ClearBit(b: Block, k: int): Block
    requires 0 <= k < BPB
  {
    b[k / 8 := NatClear(b[k / 8], k % 8)]
  }

  lemma SetBitGet(b: Block, k: int, j: int)
    requires 0 <= k < BPB && 0 <= j < BPB
    ensures Bit(SetBit(b, k), j) == (j == k || Bit(b, j))
  {
    NatSetBit(b[k / 8], k % 8, j % 8);
  }

  lemma ClearBitGet(b: Block, k: int, j: int)
    requires 0 <= k < BPB && 0 <= j < BPB
    ensures Bit(ClearBit(b, k), j) == (j != k && Bit(b, j))
  {
    NatClearBit(b[k / 8], k % 8, j % 8);
  }
}
