/** Reading and writing files: whatever the offset, length and alignment, a file is a flat
    sequence of bytes. */
module SfsIo {
  import opened Common
  import opened SfsDisk
  import opened SfsState
  import opened SfsOwnership

  // ---------------------------------------------------------------------------------------------
  // The flat file

  /** Beyond this offset the number of a file block no longer fits in 32 bits. */
  const SPAN: nat := 0x200_0000_0000    // BLOCK * WORD_LIMIT

  function BlockIndex(o: nat): nat { o / BLOCK }

  /** n as a 32-bit number. */
  function Word32(n: nat): nat { if n < WORD_LIMIT then n else n % WORD_LIMIT }

  /** The file block that the code takes for offset o. */
  function FileBlock(o: nat): nat { Word32(BlockIndex(o)) }

  function BlockOffset(o: nat): (r: nat)
    ensures r < BLOCK
  {
    o % BLOCK
  }

  /** Byte o of a file; holes and everything past the last possible block read as zero. */
  function ByteAt(fs: Fs, f: Inode, o: nat): Byte
    requires |f.direct| == NDIRECT
  {
    ContentOf(fs, f, BlockIndex(o))[BlockOffset(o)]
  }

  /** The part of n bytes at offset off that lies in the block of off. */
  function PieceLength(off: nat, n: nat): (m: nat)
    ensures m <= n && BlockOffset(off) + m <= BLOCK && (n > 0 ==> m > 0)
  {
    var room := BLOCK - BlockOffset(off);
    if n <= room then n else room
  }

  function Advance(off: nat, m: nat): nat { off + m }

  function Rest(n: nat, m: nat): nat
    requires m <= n
  {
    n - m
  }

  function Splice(b: Block, skip: nat, data: seq<Byte>): (r: Block)
    requires skip + |data| <= BLOCK
    ensures forall i | 0 <= i < BLOCK :: r[i] == if skip <= i < skip + |data| then data[i - skip] else b[i]
  {
    b[..skip] + data + b[skip + |data|..]
  }

  // ---------------------------------------------------------------------------------------------
  // Writing

  datatype WriteResult = Wrote(fs: Fs, done: nat, err: Option<Errno>) | WritePanic

  /** sfs_partialio or sfs_blockio on one block: map it, then change part of it. */
  function WritePiece(fs: Fs, ino: nat, off: nat, data: seq<Byte>): MapResult
    requires Shaped(fs) && ino in fs.files && BlockOffset(off) + |data| <= BLOCK
  {
    match Bmap(fs, ino, FileBlock(off), true)
    case Mapped(fs1, b) =>
      if b == 0 || b >= |fs1.disk| then MapPanic
      else Mapped(WriteBlock(fs1, b, Splice(fs1.disk[b], BlockOffset(off), data)), b)
    case MapError(fs1, e) => MapError(fs1, e)
    case MapPanic => MapPanic
  }

  /** Block by block, until all is written or a block cannot be had. */
  function WritePieces(fs: Fs, ino: nat, off: nat, data: seq<Byte>): WriteResult
    requires Shaped(fs) && ino in fs.files
    decreases |data|
  {
    if data == [] then Wrote(fs, 0, None)
    else
      var m := PieceLength(off, |data|);
      match WritePiece(fs, ino, off, data[..m])
      case MapPanic => WritePanic
      case MapError(fs1, e) => Wrote(fs1, 0, Some(e))
      case Mapped(fs1, _) =>
        if !Shaped(fs1) || ino !in fs1.files then WritePanic
        else match WritePieces(fs1, ino, Advance(off, m), data[m..])
             case WritePanic => WritePanic
             case Wrote(fs2, done, e) => Wrote(fs2, m + done, e)
  }

  /** The end of sfs_io: a write that did anything may have made the file longer. */
  function Extend(fs: Fs, ino: nat, off: nat, done: nat): Fs
    requires ino in fs.files
  {
    if done == 0 || off + done <= fs.files[ino].size then fs
    else SetFile(fs, ino, fs.files[ino].(size := Word32(off + done)))
  }

  /** A leading partial block of no bytes: it is mapped all the same. */
  function WriteNothing(fs: Fs, ino: nat, off: nat): WriteResult
    requires Shaped(fs) && ino in fs.files
  {
    match WritePiece(fs, ino, off, [])
    case MapPanic => WritePanic
    case MapError(fs1, e) => Wrote(fs1, 0, Some(e))
    case Mapped(fs1, _) => Wrote(fs1, 0, None)
  }

  /** sfs_io for a write of data at offset off. */
  function WriteFile(fs: Fs, ino: nat, off: nat, data: seq<Byte>): WriteResult
    requires Shaped(fs) && ino in fs.files
  {
    if data == [] && BlockOffset(off) != 0 then WriteNothing(fs, ino, off)
    else
      match WritePieces(fs, ino, off, data)
      case WritePanic => WritePanic
      case Wrote(fs1, done, e) => if ino !in fs1.files then WritePanic else Wrote(Extend(fs1, ino, off, done), done, e)
  }

  /** Everything but the bytes [off, off + |data|) of file ino reads as before. */
  ghost predicate WritesOnly(fs: Fs, fs': Fs, ino: nat, off: nat, data: seq<Byte>)
    requires Shaped(fs) && Shaped(fs') && ino in fs.files
  {
    && fs'.files.Keys == fs.files.Keys && fs'.nblocks == fs.nblocks
    && (forall o: nat ::
          ByteAt(fs', fs'.files[ino], o)
              == if off <= o < off + |data| then data[o - off] else ByteAt(fs, fs.files[ino], o))
    && (forall k, o: nat | k in fs.files && k != ino :: ByteAt(fs', fs'.files[k], o) == ByteAt(fs, fs.files[k], o))
    && (forall k | k in fs.files && k != ino :: fs'.files[k] == fs.files[k])
    && fs'.files[ino].kind == fs.files[ino].kind && fs'.files[ino].links == fs.files[ino].links
  }

  lemma SplicedByte(b: Block, off: nat, data: seq<Byte>, o: nat)
    requires BlockOffset(off) + |data| <= BLOCK && BlockIndex(o) == BlockIndex(off)
    ensures Splice(b, BlockOffset(off), data)[BlockOffset(o)]
            == if off <= o < off + |data| then data[o - off] else b[BlockOffset(o)]
  {
  }

  lemma PieceInBlock(off: nat, n: nat, o: nat)
    requires BlockOffset(off) + n <= BLOCK && off <= o < off + n
    ensures BlockIndex(o) == BlockIndex(off)
  {
  }

  lemma MappedBlockWritten(fs: Fs, own: map<nat, Owner>, ino: nat, off: nat, data: seq<Byte>, b: nat)
    requires Inv(fs, own) && ino in fs.files && BlockOffset(off) + |data| <= BLOCK
    requires b == MapOf(fs, fs.files[ino], BlockIndex(off)) && b != 0
    ensures b < fs.nblocks
    ensures var fs' := WriteBlock(fs, b, Splice(fs.disk[b], BlockOffset(off), data));
            Inv(fs', own) && fs'.files == fs.files && WritesOnly(fs, fs', ino, off, data) && InodesKept(fs, fs', own)
  {
    var fb := BlockIndex(off);
    MappedOwner(fs, own, ino, fb);
    var data' := Splice(fs.disk[b], BlockOffset(off), data);
    WriteKeeps(fs, own, ino, fb, data');
    var fs' := WriteBlock(fs, b, data');
    forall o: nat
      ensures ByteAt(fs', fs'.files[ino], o)
              == if off <= o < off + |data| then data[o - off] else ByteAt(fs, fs.files[ino], o)
    {
      if BlockIndex(o) == fb {
        SplicedByte(fs.disk[b], off, data, o);
      } else if off <= o < off + |data| {
        PieceInBlock(off, |data|, o);
      }
    }
  }

  /** Mapping a block alone changes no byte. */
  lemma MapsOnlyBytes(fs: Fs, fs': Fs, ino: nat, fb: nat, off: nat)
    requires Shaped(fs) && Shaped(fs') && ino in fs.files && MapsOnly(fs, fs', ino, fb)
    ensures WritesOnly(fs, fs', ino, off, [])
  {
  }

  lemma WritesOnlyChain(fs: Fs, fs1: Fs, fs2: Fs, ino: nat, off: nat, a: seq<Byte>, mid: nat, b: seq<Byte>,
                        ab: seq<Byte>)
    requires Shaped(fs) && Shaped(fs1) && Shaped(fs2) && ino in fs.files && ino in fs1.files
    requires WritesOnly(fs, fs1, ino, off, a) && WritesOnly(fs1, fs2, ino, mid, b) && mid == off + |a| && ab == a + b
    ensures WritesOnly(fs, fs2, ino, off, ab)
  {
    forall o: nat
      ensures ByteAt(fs2, fs2.files[ino], o)
              == if off <= o < off + |ab| then ab[o - off] else ByteAt(fs, fs.files[ino], o)
    {
    }
  }

  /** One block: written, or not for want of space, or past the largest file. */
  ghost predicate PieceContract(fs: Fs, own: map<nat, Owner>, ino: nat, off: nat, data: seq<Byte>, r: MapResult,
                                own': map<nat, Owner>)
    requires Inv(fs, own) && ino in fs.files
  {
    && !r.MapPanic? && Inv(r.fs, own') && ino in r.fs.files && r.fs.files[ino].size == fs.files[ino].size
    && WritesOnly(fs, r.fs, ino, off, if r.Mapped? then data else [])
    && (forall b | b in own :: b in own' && own'[b] == own[b]) && InodesKept(fs, r.fs, own)
    && (r.Mapped? ==> BlockIndex(off) < MAX_BLOCKS)
    && (r.MapError? ==> if BlockIndex(off) >= MAX_BLOCKS then r.err == EFBIG else r.err == ENOSPC && Full(r.fs))
  }

  lemma InSpan(o: nat)
    requires o < SPAN
    ensures FileBlock(o) == BlockIndex(o)
  {
  }

  lemma WritePieceKeeps(fs: Fs, own: map<nat, Owner>, ino: nat, off: nat, data: seq<Byte>)
    returns (own': map<nat, Owner>)
    requires Inv(fs, own) && ino in fs.files && off < SPAN && BlockOffset(off) + |data| <= BLOCK
    ensures PieceContract(fs, own, ino, off, data, WritePiece(fs, ino, off, data), own')
  {
    var fb := BlockIndex(off);
    InSpan(off);
    own' := BmapKeeps(fs, own, ino, fb, true);
    var r := Bmap(fs, ino, fb, true);
    MapsOnlyBytes(fs, r.fs, ino, fb, off);
    if r.Mapped? {
      PieceWritten(fs, r.fs, own', ino, off, data, r.block);
    }
  }

  lemma PieceWritten(fs: Fs, fs1: Fs, own: map<nat, Owner>, ino: nat, off: nat, data: seq<Byte>, b: nat)
    requires Shaped(fs) && ino in fs.files && Inv(fs1, own) && ino in fs1.files && WritesOnly(fs, fs1, ino, off, [])
    requires off < SPAN && BlockOffset(off) + |data| <= BLOCK && BlockIndex(off) < MAX_BLOCKS
    requires b != 0 && b == MapOf(fs1, fs1.files[ino], BlockIndex(off))
    ensures b < |fs1.disk|
    ensures var fs' := WriteBlock(fs1, b, Splice(fs1.disk[b], BlockOffset(off), data));
            Inv(fs', own) && WritesOnly(fs, fs', ino, off, data) && InodesKept(fs1, fs', own)
  {
    MappedBlockWritten(fs1, own, ino, off, data, b);
    var fs' := WriteBlock(fs1, b, Splice(fs1.disk[b], BlockOffset(off), data));
    WritesOnlyChain(fs, fs1, fs', ino, off, [], off, data, data);
  }

  /** A write of data at off: exactly a prefix is done, all of it unless a block could not be had. */
  ghost predicate WriteContract(fs: Fs, own: map<nat, Owner>, ino: nat, off: nat, data: seq<Byte>, r: WriteResult,
                                own': map<nat, Owner>)
    requires Shaped(fs) && ino in fs.files
  {
    && r.Wrote? && Inv(r.fs, own') && ino in r.fs.files && r.done <= |data|
    && WritesOnly(fs, r.fs, ino, off, data[..r.done])
    && (forall b | b in own :: b in own' && own'[b] == own[b]) && InodesKept(fs, r.fs, own)
    && (r.err == None ==> r.done == |data|) && (data != [] && r.done == |data| ==> r.err == None)
    && (data == [] && BlockOffset(off) == 0 ==> r.err == None && r.fs == fs)
    && (r.done > 0 ==> off + r.done <= MAX_BLOCKS * BLOCK)
    && (r.err.Some? ==>
          if BlockIndex(off + r.done) >= MAX_BLOCKS then r.err.value == EFBIG else r.err.value == ENOSPC && Full(r.fs))
  }

  lemma PieceReaches(off: nat, n: nat)
    requires n > 0
    ensures var m := PieceLength(off, n);
            && (m < n ==> BlockIndex(off + m) == BlockIndex(off) + 1 && BlockOffset(off + m) == 0)
            && (BlockIndex(off) < MAX_BLOCKS ==> off + m <= MAX_BLOCKS * BLOCK)
  {
    assert off == BlockIndex(off) * BLOCK + BlockOffset(off);
  }

  lemma Joined(data: seq<Byte>, m: nat, d: nat, md: nat)
    requires m <= |data| && d <= |data| - m && md == m + d
    ensures data[..m] + data[m..][..d] == data[..md]
  {
  }

  lemma WriteStep(fs: Fs, own: map<nat, Owner>, fs1: Fs, own1: map<nat, Owner>, ino: nat, off: nat, data: seq<Byte>,
                  m: nat, mid: nat, r: WriteResult, own': map<nat, Owner>, all: nat)
    requires Inv(fs, own) && Inv(fs1, own1) && ino in fs.files && ino in fs1.files
    requires 0 < m <= |data| && mid == off + m && mid <= MAX_BLOCKS * BLOCK && WritesOnly(fs, fs1, ino, off, data[..m])
    requires WriteContract(fs1, own1, ino, mid, data[m..], r, own') && all == m + r.done
    requires (forall b | b in own :: b in own1 && own1[b] == own[b]) && InodesKept(fs, fs1, own)
    requires (data[m..] == [] ==> r.err == None)
    ensures WriteContract(fs, own, ino, off, data, Wrote(r.fs, all, r.err), own')
  {
    Joined(data, m, r.done, all);
    WritesOnlyChain(fs, fs1, r.fs, ino, off, data[..m], mid, data[m..][..r.done], data[..all]);
    assert off + all == mid + r.done;
  }

  lemma WriteFails(fs: Fs, own: map<nat, Owner>, ino: nat, off: nat, data: seq<Byte>, piece: seq<Byte>, r1: MapResult,
                   own1: map<nat, Owner>)
    requires Inv(fs, own) && ino in fs.files && data != [] && r1.MapError?
    requires PieceContract(fs, own, ino, off, piece, r1, own1)
    ensures WriteContract(fs, own, ino, off, data, Wrote(r1.fs, 0, Some(r1.err)), own1)
  {
    assert data[..0] == [] && off + 0 == off;
  }

  lemma {:induction false} WritePiecesKeeps(fs: Fs, own: map<nat, Owner>, ino: nat, off: nat, data: seq<Byte>)
    returns (r: WriteResult, own': map<nat, Owner>)
    requires Inv(fs, own) && ino in fs.files && off < SPAN
    ensures r == WritePieces(fs, ino, off, data) && WriteContract(fs, own, ino, off, data, r, own')
    ensures r.fs.files[ino].size == fs.files[ino].size && (data == [] ==> r.err == None)
    decreases |data|
  {
    r := WritePieces(fs, ino, off, data);
    if data == [] {
      own' := own;
    } else {
      var m := PieceLength(off, |data|);
      PieceReaches(off, |data|);
      var piece := data[..m];
      own' := WritePieceKeeps(fs, own, ino, off, piece);
      var r1 := WritePiece(fs, ino, off, piece);
      if r1.MapError? {
        WriteFails(fs, own, ino, off, data, piece, r1, own');
      } else {
        var mid := Advance(off, m);
        var own1 := own';
        var r2;
        r2, own' := WritePiecesKeeps(r1.fs, own1, ino, mid, data[m..]);
        WriteStep(fs, own, r1.fs, own1, ino, off, data, m, mid, r2, own', r.done);
      }
    }
  }

  /** The size after a write of done bytes at off. */
  function NewSize(size: nat, off: nat, done: nat): nat
  {
    if done > 0 && off + done > size then Word32(off + done) else size
  }

  lemma ExtendKeeps(fs: Fs, own: map<nat, Owner>, ino: nat, off: nat, done: nat)
    requires Inv(fs, own) && ino in fs.files
    ensures var fs' := Extend(fs, ino, off, done);
            && Inv(fs', own) && fs'.used == fs.used && fs'.disk == fs.disk && fs'.nblocks == fs.nblocks
            && fs'.files.Keys == fs.files.Keys
            && (forall k | k in fs.files && k != ino :: fs'.files[k] == fs.files[k])
            && (forall k, o: nat | k in fs.files :: ByteAt(fs', fs'.files[k], o) == ByteAt(fs, fs.files[k], o))
            && fs'.files[ino] == fs.files[ino].(size := fs'.files[ino].size)
            && fs'.files[ino].size == NewSize(fs.files[ino].size, off, done)
  {
    if done > 0 && off + done > fs.files[ino].size {
      InodeFieldsKeep(fs, own, ino, fs.files[ino].(size := Word32(off + done)));
    }
  }

  /** The whole from the first piece and the rest. */
  function Joint(r1: MapResult, ino: nat, m: nat, r2: WriteResult): WriteResult
  {
    match r1
    case MapPanic => WritePanic
    case MapError(fs1, e) => Wrote(fs1, 0, Some(e))
    case Mapped(fs1, _) =>
      if !Shaped(fs1) || ino !in fs1.files || r2.WritePanic? then WritePanic else Wrote(r2.fs, m + r2.done, r2.err)
  }

  lemma FirstPiece(fs: Fs, ino: nat, off: nat, data: seq<Byte>, m: nat, mid: nat, r1: MapResult, r2: WriteResult)
    requires Shaped(fs) && ino in fs.files && data != [] && m == PieceLength(off, |data|) && mid == Advance(off, m)
    requires r1 == WritePiece(fs, ino, off, data[..m])
    requires r1.Mapped? && Shaped(r1.fs) && ino in r1.fs.files ==> r2 == WritePieces(r1.fs, ino, mid, data[m..])
    ensures WritePieces(fs, ino, off, data) == Joint(r1, ino, m, r2)
  {
  }

  /** Offsets that differ by spans are written alike. */
  lemma {:induction false} WriteWraps(fs: Fs, ino: nat, off: nat, at: nat, k: nat, data: seq<Byte>)
    requires Shaped(fs) && ino in fs.files && off == at + k * SPAN
    ensures WritePieces(fs, ino, off, data) == WritePieces(fs, ino, at, data)
    decreases |data|
  {
    BlocksWrap(off, at, k);
    if data != [] {
      var m := PieceLength(off, |data|);
      var mid, end := Advance(off, m), Advance(at, m);
      var r1 := WritePiece(fs, ino, off, data[..m]);
      var r2 := WritePanic;
      if r1.Mapped? && Shaped(r1.fs) && ino in r1.fs.files {
        WriteWraps(r1.fs, ino, mid, end, k, data[m..]);
        r2 := WritePieces(r1.fs, ino, mid, data[m..]);
      }
      FirstPiece(fs, ino, off, data, m, mid, r1, r2);
      FirstPiece(fs, ino, at, data, m, end, r1, r2);
    }
  }

  /** Block numbers wrap around at the span. */
  lemma BlocksWrap(off: nat, at: nat, k: nat)
    requires off == at + k * SPAN
    ensures FileBlock(off) == FileBlock(at) && BlockOffset(off) == BlockOffset(at)
  {
    var b, c := BlockIndex(off), BlockIndex(at);
    assert b == c + k * WORD_LIMIT;
    assert b % WORD_LIMIT == c % WORD_LIMIT;
  }

  /** Where a write at off goes. */
  function Landing(off: nat): (at: nat)
    ensures at < SPAN
  {
    if off < SPAN then off else off % SPAN
  }

  lemma LandingIs(off: nat) returns (k: nat)
    ensures off == Landing(off) + k * SPAN
  {
    k := if off < SPAN then 0 else off / SPAN;
  }

  /** A write of nothing maps its block if it starts inside one, and can fail for want of it. */
  lemma WriteNothingKeeps(fs: Fs, own: map<nat, Owner>, ino: nat, off: nat)
    returns (r: WriteResult, own': map<nat, Owner>)
    requires Inv(fs, own) && ino in fs.files && BlockOffset(off) != 0
    ensures r == WriteFile(fs, ino, off, []) && WriteContract(fs, own, ino, Landing(off), [], r, own')
    ensures r.done == 0 && r.fs.files[ino].size == fs.files[ino].size
  {
    var k := LandingIs(off);
    BlocksWrap(off, Landing(off), k);
    own' := WritePieceKeeps(fs, own, ino, Landing(off), []);
    r := WriteNothing(fs, ino, off);
  }

  /** How many blocks it takes to map file block fb. */
  function Needs(fs: Fs, f: Inode, fb: nat): nat
    requires |f.direct| == NDIRECT
  {
    if MapOf(fs, f, fb) != 0 then 0 else if fb < NDIRECT || f.indirect != 0 then 1 else 2
  }

  /** There are n free blocks, for n up to 2. */
  predicate Room(fs: Fs, n: nat)
    requires |fs.disk| == fs.nblocks
  {
    (n > 0 ==> !Full(fs)) && (n > 1 ==> !Full(fs) && !Full(TakeBlock(fs)))
  }

  lemma ZeroSlot(fs: Fs, ino: nat, j: nat, fs1: Fs, b: nat)
    requires Shaped(fs) && ino in fs.files && !Full(fs) && b == NextBlock(fs) && j < PER_INDIRECT && b != 0
    requires fs1 == SetFile(TakeBlock(fs), ino, fs.files[ino].(indirect := b))
    ensures b < |fs1.disk| && WordAt(fs1.disk[b], j) == 0 && Full(fs1) == Full(TakeBlock(fs))
  {
    ZeroWords(fs1.disk[b], j);
  }

  lemma SlotFails(fs: Fs, ino: nat, j: nat, id: nat)
    requires Shaped(fs) && ino in fs.files && j < PER_INDIRECT && id == fs.files[ino].indirect && id < |fs.disk|
    ensures BmapSlot(fs, ino, j, true).MapError? <==> WordAt(fs.disk[id], j) == 0 && Full(fs)
  {
  }

  lemma NewIndirectIs(fs: Fs, ino: nat, j: nat, fs1: Fs)
    requires Shaped(fs) && ino in fs.files && j < PER_INDIRECT && fs.files[ino].indirect == 0 && !Full(fs)
    requires fs1 == SetFile(TakeBlock(fs), ino, fs.files[ino].(indirect := NextBlock(fs))) && Shaped(fs1)
    ensures BmapIndirect(fs, ino, j, true) == BmapSlot(fs1, ino, j, true)
  {
  }

  lemma NewIndirectFails(fs: Fs, ino: nat, j: nat)
    requires Shaped(fs) && ino in fs.files && j < PER_INDIRECT && fs.files[ino].indirect == 0 && 0 in fs.used
    ensures BmapIndirect(fs, ino, j, true).MapError? <==> !Room(fs, 2)
  {
    if !Full(fs) {
      var b, f := NextBlock(fs), fs.files[ino];
      var f1 := f.(indirect := b);
      assert InodeOk(f1);
      var fs1 := SetFile(TakeBlock(fs), ino, f1);
      NewIndirectIs(fs, ino, j, fs1);
      ZeroSlot(fs, ino, j, fs1, b);
      SlotFails(fs1, ino, j, b);
    }
  }

  lemma IndirectFails(fs: Fs, own: map<nat, Owner>, ino: nat, fb: nat, j: nat)
    requires Inv(fs, own) && ino in fs.files && NDIRECT <= fb < MAX_BLOCKS && j == SlotIndex(fb)
    ensures BmapIndirect(fs, ino, j, true).MapError? <==> !Room(fs, Needs(fs, fs.files[ino], fb))
  {
    if fs.files[ino].indirect == 0 {
      NewIndirectFails(fs, ino, j);
    } else {
      assert FileOwns(fs, own, ino);
      SlotFails(fs, ino, j, fs.files[ino].indirect);
    }
  }

  /** Mapping a block for a write fails exactly if the file cannot be that big, or the blocks it
      takes are not there. */
  lemma BmapFailsExactly(fs: Fs, own: map<nat, Owner>, ino: nat, fb: nat)
    requires Inv(fs, own) && ino in fs.files
    ensures Bmap(fs, ino, fb, true).MapError? <==> fb >= MAX_BLOCKS || !Room(fs, Needs(fs, fs.files[ino], fb))
  {
    if NDIRECT <= fb < MAX_BLOCKS {
      IndirectFails(fs, own, ino, fb, SlotIndex(fb));
    }
  }

  /** When a write of no bytes fails. */
  lemma WriteNothingFails(fs: Fs, own: map<nat, Owner>, ino: nat, off: nat)
    requires Inv(fs, own) && ino in fs.files
    ensures var r, fb := WriteFile(fs, ino, off, []), FileBlock(off);
            && r.Wrote? && r.done == 0
            && (r.err == None <==>
                  BlockOffset(off) == 0 || (fb < MAX_BLOCKS && Room(fs, Needs(fs, fs.files[ino], fb))))
  {
    if BlockOffset(off) != 0 {
      BmapFailsExactly(fs, own, ino, FileBlock(off));
      var r, own' := WriteNothingKeeps(fs, own, ino, off);
    }
  }

  /** sfs_io as a write, at any offset: the bytes go where the offset is modulo the span of 32-bit
      block numbers; exactly the bytes done change, other files stay, and an error leaves a prefix
      done. The size goes by the offset itself, modulo 32 bits. */
  lemma WriteAnywhere(fs: Fs, own: map<nat, Owner>, ino: nat, off: nat, data: seq<Byte>)
    returns (r: WriteResult, own': map<nat, Owner>)
    requires Inv(fs, own) && ino in fs.files
    ensures r == WriteFile(fs, ino, off, data) && WriteContract(fs, own, ino, Landing(off), data, r, own')
    ensures r.fs.files[ino].size == NewSize(fs.files[ino].size, off, r.done)
  {
    if data == [] && BlockOffset(off) != 0 {
      r, own' := WriteNothingKeeps(fs, own, ino, off);
    } else {
      var at := Landing(off);
      var k := LandingIs(off);
      WriteWraps(fs, ino, off, at, k, data);
      var p;
      p, own' := WritePiecesKeeps(fs, own, ino, at, data);
      ExtendKeeps(p.fs, own', ino, off, p.done);
      r := WriteFile(fs, ino, off, data);
      ExtendedContract(fs, own, ino, at, data, p, r, own');
    }
  }

  /** sfs_io as a write refines a write to a flat file, below the span: the size is the larger of the
      old one and the end of the write. */
  lemma WriteIsFlat(fs: Fs, own: map<nat, Owner>, ino: nat, off: nat, data: seq<Byte>)
    returns (r: WriteResult, own': map<nat, Owner>)
    requires Inv(fs, own) && ino in fs.files && off < SPAN
    ensures r == WriteFile(fs, ino, off, data) && WriteContract(fs, own, ino, off, data, r, own')
    ensures r.fs.files[ino].size
            == if r.done > 0 && off + r.done > fs.files[ino].size then off + r.done else fs.files[ino].size
  {
    r, own' := WriteAnywhere(fs, own, ino, off, data);
  }

  lemma ExtendedContract(fs: Fs, own: map<nat, Owner>, ino: nat, off: nat, data: seq<Byte>, p: WriteResult,
                         r: WriteResult, own': map<nat, Owner>)
    requires Shaped(fs) && ino in fs.files && WriteContract(fs, own, ino, off, data, p, own')
    requires r.Wrote? && r.done == p.done && r.err == p.err && Inv(r.fs, own') && r.fs.files.Keys == p.fs.files.Keys
    requires r.fs.nblocks == p.fs.nblocks
    requires r.fs.used == p.fs.used && r.fs.disk == p.fs.disk
    requires forall k | k in p.fs.files && k != ino :: r.fs.files[k] == p.fs.files[k]
    requires forall k, o: nat | k in p.fs.files :: ByteAt(r.fs, r.fs.files[k], o) == ByteAt(p.fs, p.fs.files[k], o)
    requires r.fs.files[ino] == p.fs.files[ino].(size := r.fs.files[ino].size) && (r.done == 0 ==> r.fs == p.fs)
    ensures WriteContract(fs, own, ino, off, data, r, own')
  {
  }

  /** Past the span, a write that lands on a block a file can have is not a write to a flat file: it
      overwrites that block, or fails for want of space, where it should find the file too big. */
  lemma NotFlat(fs: Fs, own: map<nat, Owner>, ino: nat, off: nat, data: seq<Byte>, own': map<nat, Owner>)
    requires Inv(fs, own) && ino in fs.files && data != [] && SPAN <= off && Landing(off) < MAX_BLOCKS * BLOCK
    ensures !WriteContract(fs, own, ino, off, data, WriteFile(fs, ino, off, data), own')
  {
    var r, own1 := WriteAnywhere(fs, own, ino, off, data);
    assert BlockIndex(off + 0) >= MAX_BLOCKS && BlockIndex(Landing(off) + 0) < MAX_BLOCKS;
  }

  /** A write lands where it should, or finds the file too big as it should. */
  predicate LandsFlat(off: nat) { off < SPAN || Landing(off) >= MAX_BLOCKS * BLOCK }

  lemma TooBig(fs: Fs, own: map<nat, Owner>, ino: nat, off: nat, data: seq<Byte>)
    requires Inv(fs, own) && ino in fs.files && data != [] && Landing(off) >= MAX_BLOCKS * BLOCK
    ensures WriteFile(fs, ino, off, data) == Wrote(fs, 0, Some(EFBIG))
  {
    var k := LandingIs(off);
    BlocksWrap(off, Landing(off), k);
    InSpan(Landing(off));
    var m := PieceLength(off, |data|);
    FirstPiece(fs, ino, off, data, m, Advance(off, m), MapError(fs, EFBIG), WritePanic);
  }

  /** The exact offsets at which sfs_io writes as to a flat file. */
  lemma FlatExactly(fs: Fs, own: map<nat, Owner>, ino: nat, off: nat, data: seq<Byte>)
    requires Inv(fs, own) && ino in fs.files && data != []
    ensures (exists own' :: WriteContract(fs, own, ino, off, data, WriteFile(fs, ino, off, data), own'))
            <==> LandsFlat(off)
  {
    if off < SPAN {
      var r, own' := WriteIsFlat(fs, own, ino, off, data);
    } else if Landing(off) >= MAX_BLOCKS * BLOCK {
      TooBig(fs, own, ino, off, data);
      TooBigIsFlat(fs, own, ino, off, data);
    } else {
      forall own' ensures !WriteContract(fs, own, ino, off, data, WriteFile(fs, ino, off, data), own') {
        NotFlat(fs, own, ino, off, data, own');
      }
    }
  }

  lemma TooBigIsFlat(fs: Fs, own: map<nat, Owner>, ino: nat, off: nat, data: seq<Byte>)
    requires Inv(fs, own) && ino in fs.files && data != [] && SPAN <= off
    ensures WriteContract(fs, own, ino, off, data, Wrote(fs, 0, Some(EFBIG)), own)
  {
    assert BlockIndex(off + 0) >= MAX_BLOCKS;
  }

  lemma SpanSize(off: nat, n: nat)
    requires off == SPAN && 0 < n < WORD_LIMIT
    ensures Landing(off) == 0 && Word32(off + n) == n
  {
    assert off + n == n + 512 * WORD_LIMIT;
  }

  /** At offset 2^41 the start of the file is overwritten, and the size is cut to the bytes written. */
  lemma SpanOverwritesStart(fs: Fs, own: map<nat, Owner>, ino: nat, off: nat, data: seq<Byte>, r: WriteResult)
    requires Inv(fs, own) && ino in fs.files && data != [] && off == SPAN
    requires r == WriteFile(fs, ino, off, data) && r.Wrote? && r.err == None
    ensures Shaped(r.fs) && ino in r.fs.files && r.fs.files[ino].size == |data|
    ensures forall o: nat ::
            ByteAt(r.fs, r.fs.files[ino], o) == if o < |data| then data[o] else ByteAt(fs, fs.files[ino], o)
  {
    var _, own' := WriteAnywhere(fs, own, ino, off, data);
    assert data[..|data|] == data && |data| < WORD_LIMIT;
    SpanSize(off, |data|);
    BytesFromStart(fs, r.fs, ino, Landing(off), data, data[..r.done]);
  }

  lemma BytesFromStart(fs: Fs, fs': Fs, ino: nat, at: nat, data: seq<Byte>, done: seq<Byte>)
    requires Shaped(fs) && Shaped(fs') && ino in fs.files && at == 0 && done == data
    requires WritesOnly(fs, fs', ino, at, done)
    ensures forall o: nat ::
            ByteAt(fs', fs'.files[ino], o) == if o < |data| then data[o] else ByteAt(fs, fs.files[ino], o)
  {
  }

  // ---------------------------------------------------------------------------------------------
  // Reading

  datatype ReadResult = Read(data: seq<Byte>, err: Option<Errno>) | ReadPanic

  function BlockBytes(fs: Fs, b: nat): Block
  {
    if b == 0 || b >= |fs.disk| then ZERO_BLOCK else fs.disk[b]
  }

  /** Block by block; a hole gives zeros. */
  function ReadPieces(fs: Fs, ino: nat, off: nat, n: nat): ReadResult
    requires Shaped(fs) && ino in fs.files
    decreases n
  {
    if n == 0 then Read([], None)
    else
      match Bmap(fs, ino, FileBlock(off), false)
      case MapPanic => ReadPanic
      case MapError(_, e) => Read([], Some(e))
      case Mapped(_, b) =>
        var m := PieceLength(off, n);
        var skip := BlockOffset(off);
        match ReadPieces(fs, ino, Advance(off, m), Rest(n, m))
        case ReadPanic => ReadPanic
        case Read(rest, e) => Read(BlockBytes(fs, b)[skip..skip + m] + rest, e)
  }

  /** A leading partial block of no bytes: it is looked up all the same. */
  function ReadNothing(fs: Fs, ino: nat, off: nat): ReadResult
    requires Shaped(fs) && ino in fs.files
  {
    match Bmap(fs, ino, FileBlock(off), false)
    case MapPanic => ReadPanic
    case MapError(_, e) => Read([], Some(e))
    case Mapped(_, _) => Read([], None)
  }

  /** sfs_io for a read of n bytes at offset off: nothing at or past the end, and no more than
      there is. */
  function ReadFile(fs: Fs, ino: nat, off: nat, n: nat): ReadResult
    requires Shaped(fs) && ino in fs.files
  {
    var size := fs.files[ino].size;
    if off >= size then Read([], None)
    else if n == 0 && BlockOffset(off) != 0 then ReadNothing(fs, ino, off)
    else ReadPieces(fs, ino, off, Served(size, off, n))
  }

  /** How much there is to read. */
  function Served(size: nat, off: nat, n: nat): nat
  {
    if off >= size then 0 else if off + n > size then size - off else n
  }

  /** How much of a read is served: up to the largest possible block. */
  function Readable(off: nat, n: nat): nat
  {
    var limit := MAX_BLOCKS * BLOCK;
    if off + n <= limit then n else if off < limit then limit - off else 0
  }

  ghost predicate ReadContract(fs: Fs, f: Inode, off: nat, n: nat, r: ReadResult)
    requires |f.direct| == NDIRECT
  {
    && r.Read? && |r.data| == Readable(off, n)
    && (forall i | 0 <= i < |r.data| :: r.data[i] == ByteAt(fs, f, off + i))
    && r.err == if Readable(off, n) == n then None else Some(EFBIG)
  }

  lemma PieceRead(fs: Fs, f: Inode, off: nat, n: nat, m: nat, piece: seq<Byte>)
    requires |f.direct| == NDIRECT && n > 0 && m == PieceLength(off, n)
    requires piece == ContentOf(fs, f, BlockIndex(off))[BlockOffset(off)..BlockOffset(off) + m]
    ensures forall i | 0 <= i < m :: piece[i] == ByteAt(fs, f, off + i)
  {
    forall i | 0 <= i < m ensures piece[i] == ByteAt(fs, f, off + i) {
      PieceInBlock(off, m, off + i);
    }
  }

  /** Looking a block up to read it gives its contents, and fails only past the largest block. */
  lemma BmapReads(fs: Fs, own: map<nat, Owner>, ino: nat, fb: nat) returns (b: MapResult)
    requires Inv(fs, own) && ino in fs.files
    ensures b == Bmap(fs, ino, fb, false)
    ensures if fb < MAX_BLOCKS then b.Mapped? && BlockBytes(fs, b.block) == ContentOf(fs, fs.files[ino], fb)
            else b == MapError(fs, EFBIG)
  {
    var _ := BmapKeeps(fs, own, ino, fb, false);
    b := Bmap(fs, ino, fb, false);
  }

  lemma {:induction false} ReadPiecesFlat(fs: Fs, own: map<nat, Owner>, ino: nat, off: nat, n: nat)
    returns (r: ReadResult)
    requires Inv(fs, own) && ino in fs.files && off + n <= SPAN
    ensures r == ReadPieces(fs, ino, off, n) && ReadContract(fs, fs.files[ino], off, n, r)
    decreases n
  {
    r := ReadPieces(fs, ino, off, n);
    if n > 0 {
      var fb := BlockIndex(off);
      InSpan(off);
      var b := BmapReads(fs, own, ino, fb);
      var m := PieceLength(off, n);
      PieceReaches(off, n);
      if fb < MAX_BLOCKS {
        var mid := Advance(off, m);
        var r' := ReadPiecesFlat(fs, own, ino, mid, Rest(n, m));
        var piece := BlockBytes(fs, b.block)[BlockOffset(off)..BlockOffset(off) + m];
        PieceRead(fs, fs.files[ino], off, n, m, piece);
        ReadStep(fs, fs.files[ino], off, n, m, mid, piece, r', r);
      } else {
        assert off == fb * BLOCK + BlockOffset(off);
      }
    }
  }

  lemma ReadStep(fs: Fs, f: Inode, off: nat, n: nat, m: nat, mid: nat, piece: seq<Byte>, r': ReadResult, r: ReadResult)
    requires |f.direct| == NDIRECT && 0 < m <= n && mid == off + m && mid <= MAX_BLOCKS * BLOCK && |piece| == m
    requires forall i | 0 <= i < m :: piece[i] == ByteAt(fs, f, off + i)
    requires ReadContract(fs, f, mid, Rest(n, m), r') && r == Read(piece + r'.data, r'.err)
    ensures ReadContract(fs, f, off, n, r)
  {
    forall i | 0 <= i < |r.data| ensures r.data[i] == ByteAt(fs, f, off + i) {
      if i >= m {
        assert r.data[i] == r'.data[i - m] && off + i == mid + (i - m);
      }
    }
  }

  /** sfs_io as a read returns the bytes of the flat file up to the size, and fails only past the
      largest possible block. */
  lemma ReadIsFlat(fs: Fs, own: map<nat, Owner>, ino: nat, off: nat, n: nat) returns (r: ReadResult)
    requires Inv(fs, own) && ino in fs.files
    ensures r == ReadFile(fs, ino, off, n)
    ensures var size := fs.files[ino].size;
            if n == 0 && off < size && BlockOffset(off) != 0
                then r == Read([], if BlockIndex(off) < MAX_BLOCKS then None else Some(EFBIG))
            else ReadContract(fs, fs.files[ino], off, Served(size, off, n), r)
  {
    r := ReadFile(fs, ino, off, n);
    var size := fs.files[ino].size;
    if off < size {
      if n == 0 && BlockOffset(off) != 0 {
        InSpan(off);
        var b := BmapReads(fs, own, ino, BlockIndex(off));
      } else {
        var _ := ReadPiecesFlat(fs, own, ino, off, Served(size, off, n));
      }
    }
  }

  lemma ReadsWhatIsThere(fs: Fs, own: map<nat, Owner>, ino: nat, off: nat, data: seq<Byte>)
    requires Inv(fs, own) && ino in fs.files && data != [] && off + |data| <= fs.files[ino].size
    requires off + |data| <= MAX_BLOCKS * BLOCK
    requires forall i | 0 <= i < |data| :: data[i] == ByteAt(fs, fs.files[ino], off + i)
    ensures ReadFile(fs, ino, off, |data|) == Read(data, None)
  {
    var r := ReadIsFlat(fs, own, ino, off, |data|);
    assert |r.data| == |data|;
    assert r.data == data;
  }

  lemma WrittenBytes(fs: Fs, f: Inode, fs0: Fs, f0: Inode, off: nat, data: seq<Byte>)
    requires |f.direct| == NDIRECT && |f0.direct| == NDIRECT
    requires forall o: nat :: ByteAt(fs, f, o) == if off <= o < off + |data| then data[o - off] else ByteAt(fs0, f0, o)
    ensures forall i | 0 <= i < |data| :: data[i] == ByteAt(fs, f, off + i)
  {
    forall i | 0 <= i < |data| ensures data[i] == ByteAt(fs, f, off + i) {
      var o := off + i;
      assert data[o - off] == data[i];
    }
  }

  /** What a completed write put in a file, a read of the same place gets out, exactly below the span. */
  lemma ReadBack(fs: Fs, own: map<nat, Owner>, ino: nat, off: nat, data: seq<Byte>, w: WriteResult)
    requires Inv(fs, own) && ino in fs.files && data != [] && w == WriteFile(fs, ino, off, data) && w.Wrote?
    requires w.err == None
    ensures Shaped(w.fs) && ino in w.fs.files && (ReadFile(w.fs, ino, off, |data|) == Read(data, None) <==> off < SPAN)
  {
    if off < SPAN {
      var r, own' := WriteIsFlat(fs, own, ino, off, data);
      assert data[..|data|] == data;
      WrittenBytes(w.fs, w.fs.files[ino], fs, fs.files[ino], off, data);
      ReadsWhatIsThere(w.fs, own', ino, off, data);
    } else {
      var r, own' := WriteAnywhere(fs, own, ino, off, data);
    }
  }
}
