/** The state of an SFS volume: which blocks are marked in use, what is on the disk, and the
    current inode of every file. */
module SfsState {
  import opened SfsDisk

  const ROOT_INO: nat := 1
  const FREEMAP_START: nat := 2
  const BITS_PER_BLOCK: nat := 4096
  const MAX_VOLUME: nat := 0x80_0000    // block numbers times 512 fit in 32 bits

  datatype Fs = Fs(nblocks: nat, used: set<nat>, disk: seq<Block>, files: map<nat, Inode>)

  datatype Errno = EFBIG | ENOSPC | EEXIST | ENOENT | ENAMETOOLONG | EBUSY | EINVAL

  /** What a block in use is used for. */
  datatype Owner =
    | Super
    | Freemap
    | InodeOf(ino: nat)
    | Direct(ino: nat, i: nat)
    | Indirect(ino: nat)
    | Slot(ino: nat, j: nat)

  function FreemapBlocks(n: nat): nat { (n + BITS_PER_BLOCK - 1) / BITS_PER_BLOCK }

  predicate IsFreemap(n: nat, b: nat) { FREEMAP_START <= b < FREEMAP_START + FreemapBlocks(n) }

  predicate Shaped(fs: Fs)
  {
    && |fs.disk| == fs.nblocks < MAX_VOLUME
    && (forall ino | ino in fs.files :: InodeOk(fs.files[ino]))
  }

  // ---------------------------------------------------------------------------------------------
  // The block map of a file

  /** Entry j of the indirect block, 0 without one. */
  function SlotOf(fs: Fs, i: Inode, j: nat): (w: nat)
    requires j < PER_INDIRECT
    ensures w < WORD_LIMIT
  {
    if i.indirect == 0 || i.indirect >= |fs.disk| then 0 else WordAt(fs.disk[i.indirect], j)
  }

  /** The disk block of file block fb, 0 for a hole. */
  function MapOf(fs: Fs, i: Inode, fb: nat): nat
    requires |i.direct| == NDIRECT
  {
    if fb < NDIRECT then i.direct[fb] else if fb < MAX_BLOCKS then SlotOf(fs, i, fb - NDIRECT) else 0
  }

  /** The contents of file block fb; a hole reads as zeros. */
  function ContentOf(fs: Fs, i: Inode, fb: nat): Block
    requires |i.direct| == NDIRECT
  {
    var b := MapOf(fs, i, fb);
    if b == 0 || b >= |fs.disk| then ZERO_BLOCK else fs.disk[b]
  }

  // ---------------------------------------------------------------------------------------------
  // Ownership

  /** The use recorded for block b is real. */
  predicate Backed(fs: Fs, b: nat, o: Owner)
    requires Shaped(fs)
  {
    match o
    case Super => b == 0
    case Freemap => IsFreemap(fs.nblocks, b)
    case InodeOf(ino) => ino == b && ino in fs.files
    case Direct(ino, i) => b != 0 && ino in fs.files && i < NDIRECT && fs.files[ino].direct[i] == b
    case Indirect(ino) => b != 0 && ino in fs.files && fs.files[ino].indirect == b
    case Slot(ino, j) => b != 0 && ino in fs.files && j < PER_INDIRECT && SlotOf(fs, fs.files[ino], j) == b
  }

  predicate Owned(own: map<nat, Owner>, b: nat, o: Owner)
  {
    b in own && own[b] == o
  }

  /** The blocks a file points to are recorded as its own. */
  predicate FileOwns(fs: Fs, own: map<nat, Owner>, ino: nat)
    requires Shaped(fs) && ino in fs.files
  {
    var f := fs.files[ino];
    && Owned(own, ino, InodeOf(ino))
    && (forall i | 0 <= i < NDIRECT && f.direct[i] != 0 :: Owned(own, f.direct[i], Direct(ino, i)))
    && (f.indirect != 0 ==> Owned(own, f.indirect, Indirect(ino)))
    && (forall j | 0 <= j < PER_INDIRECT && SlotOf(fs, f, j) != 0 :: Owned(own, SlotOf(fs, f, j), Slot(ino, j)))
  }

  /** A block is marked in use exactly when it has an owner, and then it has one. */
  ghost predicate Inv(fs: Fs, own: map<nat, Owner>)
  {
    && Shaped(fs) && own.Keys == fs.used
    && (forall b | b in own :: b < fs.nblocks && Backed(fs, b, own[b]))
    && (forall ino | ino in fs.files :: FileOwns(fs, own, ino))
    && Owned(own, 0, Super) && (forall b | IsFreemap(fs.nblocks, b) :: Owned(own, b, Freemap))
    && ROOT_INO in fs.files
  }

  // ---------------------------------------------------------------------------------------------
  // Allocation

  /** The first block not in use, from i on. */
  function FirstFree(used: set<nat>, n: nat, i: nat): (r: nat)
    requires i <= n
    ensures i <= r <= n && (r < n ==> r !in used) && forall k | i <= k < r :: k in used
    decreases n - i
  {
    if i == n || i !in used then i else FirstFree(used, n, i + 1)
  }

  predicate Full(fs: Fs) { FirstFree(fs.used, fs.nblocks, 0) == fs.nblocks }

  /** sfs_balloc on a volume that is not full: the first free block, cleared. */
  function TakeBlock(fs: Fs): (fs': Fs)
    requires |fs.disk| == fs.nblocks && !Full(fs)
  {
    var b := FirstFree(fs.used, fs.nblocks, 0);
    fs.(used := fs.used + {b}, disk := fs.disk[b := ZERO_BLOCK])
  }

  function NextBlock(fs: Fs): (b: nat)
    requires !Full(fs)
    ensures b < fs.nblocks && b !in fs.used
  {
    FirstFree(fs.used, fs.nblocks, 0)
  }

  /** sfs_bfree. */
  function FreeBlock(fs: Fs, b: nat): Fs
  {
    fs.(used := fs.used - {b})
  }

  function SetFile(fs: Fs, ino: nat, i: Inode): Fs
  {
    fs.(files := fs.files[ino := i])
  }

  function WriteBlock(fs: Fs, b: nat, data: Block): Fs
    requires b < |fs.disk|
  {
    fs.(disk := fs.disk[b := data])
  }

  // ---------------------------------------------------------------------------------------------
  // sfs_bmap

  datatype MapResult = Mapped(fs: Fs, block: nat) | MapError(fs: Fs, err: Errno) | MapPanic

  /** Hand back a block, unless it is marked free. */
  function HandBack(fs: Fs, block: nat): MapResult
  {
    if block != 0 && (block >= fs.nblocks || block !in fs.used) then MapPanic else Mapped(fs, block)
  }

  function BmapDirect(fs: Fs, ino: nat, fb: nat, alloc: bool): MapResult
    requires Shaped(fs) && ino in fs.files && fb < NDIRECT
  {
    var f := fs.files[ino];
    if f.direct[fb] == 0 && alloc then
      if Full(fs) then MapError(fs, ENOSPC)
      else
        var b := NextBlock(fs);
        HandBack(SetFile(TakeBlock(fs), ino, f.(direct := f.direct[fb := b])), b)
    else HandBack(fs, f.direct[fb])
  }

  /** The entry j of an indirect block that is there. */
  function BmapSlot(fs: Fs, ino: nat, j: nat, alloc: bool): MapResult
    requires Shaped(fs) && ino in fs.files && j < PER_INDIRECT
  {
    var id := fs.files[ino].indirect;
    if id >= fs.nblocks then MapPanic
    else
      var block := WordAt(fs.disk[id], j);
      if block == 0 && alloc then
        if Full(fs) then MapError(fs, ENOSPC)
        else
          var b := NextBlock(fs);
          var fs1 := TakeBlock(fs);
          HandBack(WriteBlock(fs1, id, SetWord(fs.disk[id], j, b)), b)
      else HandBack(fs, block)
  }

  function BmapIndirect(fs: Fs, ino: nat, j: nat, alloc: bool): MapResult
    requires Shaped(fs) && ino in fs.files && j < PER_INDIRECT
  {
    var f := fs.files[ino];
    if f.indirect == 0 && !alloc then Mapped(fs, 0)
    else if f.indirect == 0 then
      if Full(fs) then MapError(fs, ENOSPC)
      else
        var b := NextBlock(fs);
        var fs1 := SetFile(TakeBlock(fs), ino, f.(indirect := b));
        assert InodeOk(fs1.files[ino]);
        BmapSlot(fs1, ino, j, alloc)
    else BmapSlot(fs, ino, j, alloc)
  }

  function SlotIndex(fb: nat): nat
    requires NDIRECT <= fb
  {
    fb - NDIRECT
  }

  /** sfs_bmap. */
  function Bmap(fs: Fs, ino: nat, fb: nat, alloc: bool): MapResult
    requires Shaped(fs) && ino in fs.files
  {
    if fb < NDIRECT then BmapDirect(fs, ino, fb, alloc)
    else if fb >= MAX_BLOCKS then MapError(fs, EFBIG)
    else BmapIndirect(fs, ino, SlotIndex(fb), alloc)
  }
}
