/** Disk blocks: bytes, the words of an indirect block, and inodes as they are laid out on disk. */
module SfsDisk {

  const BLOCK: nat := 512
  const NDIRECT: nat := 15
  const PER_INDIRECT: nat := 128    // words in a block
  const MAX_BLOCKS: nat := 143      // NDIRECT + PER_INDIRECT
  const TYPE_INVAL: nat := 0
  const TYPE_FILE: nat := 1
  const TYPE_DIR: nat := 2
  const WORD_LIMIT: nat := 0x1_0000_0000
  const HALF_LIMIT: nat := 0x1_0000

  type Byte = b: int | 0 <= b < 256

  type Block = s: seq<Byte> | |s| == BLOCK witness Zeros(BLOCK)

  function Zeros(n: nat): (z: seq<Byte>)
    ensures |z| == n && forall i | 0 <= i < n :: z[i] == 0
  {
    seq(n, _ => 0)
  }

  const ZERO_BLOCK: Block := Zeros(BLOCK)

  predicate AllZero(b: Block)
  {
    forall i | 0 <= i < BLOCK :: b[i] == 0
  }

  // ---------------------------------------------------------------------------------------------
  // Words, most significant byte first

  function Word(b0: Byte, b1: Byte, b2: Byte, b3: Byte): (w: nat)
    ensures w < WORD_LIMIT
  {
    ((b0 * 256 + b1) * 256 + b2) * 256 + b3
  }

  function WordAt(b: Block, j: nat): (w: nat)
    requires j < PER_INDIRECT
    ensures w < WORD_LIMIT
  {
    Word(b[4 * j], b[4 * j + 1], b[4 * j + 2], b[4 * j + 3])
  }

  function SetWord(b: Block, j: nat, w: nat): (r: Block)
    requires j < PER_INDIRECT && w < WORD_LIMIT
  {
    b[4 * j := w / 256 / 256 / 256][4 * j + 1 := w / 256 / 256 % 256][4 * j + 2 := w / 256 % 256][4 * j + 3 := w % 256]
  }

  lemma WordParts(w: nat)
    requires w < WORD_LIMIT
    ensures Word(w / 256 / 256 / 256, w / 256 / 256 % 256, w / 256 % 256, w % 256) == w
  {
    var a := w / 256;
    var b := a / 256;
    assert w == a * 256 + w % 256 && a == b * 256 + a % 256 && b == b / 256 * 256 + b % 256;
  }

  /** Writing a word changes that word alone. */
  lemma WordAfterSet(b: Block, j: nat, w: nat, k: nat)
    requires j < PER_INDIRECT && k < PER_INDIRECT && w < WORD_LIMIT
    ensures WordAt(SetWord(b, j, w), k) == if k == j then w else WordAt(b, k)
  {
    WordParts(w);
  }

  lemma ZeroWords(b: Block, k: nat)
    requires AllZero(b) && k < PER_INDIRECT
    ensures WordAt(b, k) == 0
  {
  }

  /** A block as the words of an indirect block, and back. */
  function WordsUpTo(b: Block, n: nat): (ws: seq<nat>)
    requires n <= PER_INDIRECT
    ensures |ws| == n && forall k: nat | k < n :: ws[k] == WordAt(b, k)
  {
    if n == 0 then [] else WordsUpTo(b, n - 1) + [WordAt(b, n - 1)]
  }

  function WordsOf(b: Block): (ws: seq<nat>)
    ensures |ws| == PER_INDIRECT && forall k: nat | k < PER_INDIRECT :: ws[k] == WordAt(b, k)
  {
    WordsUpTo(b, |b| / 4)
  }

  function FromWords(ws: seq<nat>, n: nat): Block
    requires n <= |ws| <= PER_INDIRECT && forall k | 0 <= k < |ws| :: ws[k] < WORD_LIMIT
  {
    if n == 0 then ZERO_BLOCK else SetWord(FromWords(ws, n - 1), n - 1, ws[n - 1])
  }

  function BlockOf(ws: seq<nat>): Block
    requires |ws| == PER_INDIRECT && forall k | 0 <= k < |ws| :: ws[k] < WORD_LIMIT
  {
    FromWords(ws, |ws|)
  }

  lemma {:induction false} FromWordsAt(ws: seq<nat>, n: nat, k: nat)
    requires k < n <= |ws| <= PER_INDIRECT && forall i | 0 <= i < |ws| :: ws[i] < WORD_LIMIT
    ensures WordAt(FromWords(ws, n), k) == ws[k]
  {
    var last := n - 1;
    WordAfterSet(FromWords(ws, last), last, ws[last], k);
    if k < last {
      FromWordsAt(ws, last, k);
    }
  }

  /** The words written to a block are the words read from it. */
  lemma WordsRoundTrip(ws: seq<nat>)
    requires |ws| == PER_INDIRECT && forall k | 0 <= k < |ws| :: ws[k] < WORD_LIMIT
    ensures WordsOf(BlockOf(ws)) == ws
  {
    var b := BlockOf(ws);
    forall k: nat | k < PER_INDIRECT ensures WordsOf(b)[k] == ws[k] {
      FromWordsAt(ws, |ws|, k);
    }
  }

  // ---------------------------------------------------------------------------------------------
  // Inodes

  datatype Inode = Inode(size: nat, kind: nat, links: nat, direct: seq<nat>, indirect: nat)

  predicate InodeOk(i: Inode)
  {
    && i.size < WORD_LIMIT && i.kind < HALF_LIMIT && i.links < HALF_LIMIT
    && |i.direct| == NDIRECT && (forall k | 0 <= k < NDIRECT :: i.direct[k] < WORD_LIMIT)
    && i.indirect < WORD_LIMIT
  }

  /** The words of an inode: size, type and link count, the direct blocks, the indirect block. */
  function InodeWord(i: Inode, k: nat): (w: nat)
    requires InodeOk(i) && k < NDIRECT + 3
    ensures w < WORD_LIMIT
  {
    if k == 0 then i.size
    else if k == 1 then i.kind * HALF_LIMIT + i.links
    else if k < NDIRECT + 2 then i.direct[k - 2]
    else i.indirect
  }

  function EncodeFrom(i: Inode, b: Block, n: nat): (r: Block)
    requires InodeOk(i) && n <= NDIRECT + 3
  {
    if n == 0 then b else SetWord(EncodeFrom(i, b, n - 1), n - 1, InodeWord(i, n - 1))
  }

  function EncodeInode(i: Inode): Block
    requires InodeOk(i)
  {
    EncodeFrom(i, ZERO_BLOCK, |i.direct| + 3)
  }

  function DirectWords(b: Block): (s: seq<nat>)
    ensures |s| == NDIRECT && forall k | 0 <= k < NDIRECT :: s[k] == WordAt(b, k + 2)
  {
    [WordAt(b, 2), WordAt(b, 3), WordAt(b, 4), WordAt(b, 5), WordAt(b, 6), WordAt(b, 7), WordAt(b, 8), WordAt(b, 9),
     WordAt(b, 10), WordAt(b, 11), WordAt(b, 12), WordAt(b, 13), WordAt(b, 14), WordAt(b, 15), WordAt(b, 16)]
  }

  function DecodeInode(b: Block): Inode
  {
    Inode(WordAt(b, 0), WordAt(b, 1) / HALF_LIMIT, WordAt(b, 1) % HALF_LIMIT, DirectWords(b), WordAt(b, NDIRECT + 2))
  }

  lemma {:induction false} EncodedWord(i: Inode, b: Block, n: nat, k: nat)
    requires InodeOk(i) && k < n <= NDIRECT + 3
    ensures WordAt(EncodeFrom(i, b, n), k) == InodeWord(i, k)
  {
    WordAfterSet(EncodeFrom(i, b, n - 1), n - 1, InodeWord(i, n - 1), k);
    if k < n - 1 {
      EncodedWord(i, b, n - 1, k);
    }
  }

  lemma DecodedFromWords(b: Block, i: Inode)
    requires InodeOk(i) && forall k: nat | k < NDIRECT + 3 :: WordAt(b, k) == InodeWord(i, k)
    ensures DecodeInode(b) == i
  {
    var d := DirectWords(b);
    forall k | 0 <= k < NDIRECT ensures d[k] == i.direct[k] {
      assert WordAt(b, k + 2) == InodeWord(i, k + 2);
    }
    assert d == i.direct;
    assert WordAt(b, 0) == i.size && WordAt(b, 1) == InodeWord(i, 1);
    assert WordAt(b, NDIRECT + 2) == i.indirect;
  }

  /** What is written for an inode reads back as that inode. */
  lemma InodeRoundTrip(i: Inode)
    requires InodeOk(i)
    ensures DecodeInode(EncodeInode(i)) == i
  {
    var b := EncodeInode(i);
    forall k: nat | k < NDIRECT + 3 ensures WordAt(b, k) == InodeWord(i, k) {
      EncodedWord(i, ZERO_BLOCK, |i.direct| + 3, k);
    }
    DecodedFromWords(b, i);
  }

  lemma DecodedOk(b: Block)
    ensures InodeOk(DecodeInode(b))
  {
  }

  lemma ZeroWordsInode(b: Block)
    requires forall k: nat | k < PER_INDIRECT :: WordAt(b, k) == 0
    ensures var i := DecodeInode(b);
            && i.kind == TYPE_INVAL && i.links == 0 && i.size == 0 && i.indirect == 0
            && forall k | 0 <= k < NDIRECT :: i.direct[k] == 0
  {
    assert WordAt(b, 0) == 0 && WordAt(b, 1) == 0 && WordAt(b, NDIRECT + 2) == 0;
  }

  /** A cleared block reads as an inode of invalid type with nothing in it. */
  lemma ZeroInode(b: Block)
    requires AllZero(b)
    ensures var i := DecodeInode(b);
            && i.kind == TYPE_INVAL && i.links == 0 && i.size == 0 && i.indirect == 0
            && forall k | 0 <= k < NDIRECT :: i.direct[k] == 0
  {
    AllWordsZero(b);
    ZeroWordsInode(b);
  }

  lemma AllWordsZero(b: Block)
    requires AllZero(b)
    ensures forall k: nat | k < PER_INDIRECT :: WordAt(b, k) == 0
  {
    forall k: nat | k < PER_INDIRECT ensures WordAt(b, k) == 0 {
      ZeroWords(b, k);
    }
  }
}
