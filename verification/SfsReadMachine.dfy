/** sfs_io in place for a read: what the disk has, or zeros for a hole, goes to the buffers of the request. */
module SfsReadMachine {
  import opened Common
  import opened SfsDisk
  import opened SfsState
  import opened SfsOwnership
  import opened SfsIo
  import opened SfsMachine
  import opened SfsIoMachine
  import opened Uio

  /** The request has received data, at the first of its addresses. */
  ghost predicate Received(uio: Uio, mem: seq<Byte>, to: seq<nat>, off: nat, resid: nat, data: seq<Byte>)
    reads uio, uio.mem
  {
    && uio.Valid() && !uio.writing && |data| <= |to| && |uio.mem[..]| == |mem|
    && (forall i | 0 <= i < |to| :: to[i] < |mem|)
    && |data| <= resid && uio.resid == resid - |data| && uio.offset == off + |data|
    && Addresses(uio.iov) == to[|data|..] && uio.mem[..] == Store(mem, to[..|data|], data)
  }

  lemma ReceivedMore(mem: seq<Byte>, to: seq<nat>, got: seq<Byte>, piece: seq<Byte>, i: nat, j: nat)
    requires i == |got| && j == i + |piece| <= |to| && forall k | 0 <= k < |to| :: to[k] < |mem|
    ensures to[i..][|piece|..] == to[j..] && to[i..][..|piece|] == to[i..j]
    ensures Store(Store(mem, to[..i], got), to[i..j], piece) == Store(mem, to[..j], got + piece)
  {
    DropDrop(to, i, |piece|, j);
    StoreChain(mem, to[..i], got, to[i..j], piece);
    TakeTake(to, i, j);
  }

  /** The piece of the file at the request's offset. */
  ghost function PieceAt(fs: Fs, ino: nat, off: nat, len: nat): seq<Byte>
    requires Shaped(fs) && ino in fs.files && Bmap(fs, ino, FileBlock(off), false).Mapped?
    requires BlockOffset(off) + len <= BLOCK
  {
    BlockBytes(fs, Bmap(fs, ino, FileBlock(off), false).block)[BlockOffset(off)..BlockOffset(off) + len]
  }

  /** One block is looked up, and len bytes of it are received. */
  ghost predicate PieceRead(vol: Volume, uio: Uio, ino: nat, len: nat, mem: seq<Byte>, to: seq<nat>, off: nat,
                            resid: nat, err: Option<Errno>)
    requires vol.Valid() && Shaped(vol.State()) && ino in vol.inodes && BlockOffset(off) + len <= BLOCK
    reads vol, vol.freemap, vol.freemap.v, vol.disk, uio, uio.mem
  {
    match Bmap(vol.State(), ino, FileBlock(off), false)
    case MapPanic => false
    case MapError(_, e) => err == Some(e) && Received(uio, mem, to, off, resid, [])
    case Mapped(_, b) => err == None && Received(uio, mem, to, off, resid, PieceAt(vol.State(), ino, off, len))
  }

  lemma LookupOnly(fs: Fs, own: map<nat, Owner>, ino: nat, fb: nat) returns (r: MapResult)
    requires Inv(fs, own) && ino in fs.files
    ensures r == Bmap(fs, ino, fb, false) && !r.MapPanic? && r.fs == fs && (r.Mapped? ==> r.block < fs.nblocks)
  {
    r := BmapReads(fs, own, ino, fb);
    var _ := BmapKeeps(fs, own, ino, fb, false);
    if r.Mapped? && r.block != 0 {
      MappedOwner(fs, own, ino, fb);
    }
  }

  lemma StoreNothing(mem: seq<Byte>, to: seq<nat>)
    ensures Store(mem, to[..0], []) == mem && to[0..] == to
  {
  }

  /** sfs_bmap, asked only to look. */
  method Look(vol: Volume, ino: nat, fb: nat, ghost own: map<nat, Owner>) returns (err: Option<Errno>, block: nat)
    requires vol.Valid() && Inv(vol.State(), own) && ino in vol.inodes
    modifies vol`inodes, vol.freemap.v, vol.disk
    ensures vol.Valid() && vol.State() == old(vol.State())
    ensures Bmap(vol.State(), ino, fb, false)
            == if err == None then Mapped(vol.State(), block) else MapError(vol.State(), err.value)
    ensures err == None ==> block < vol.nblocks
  {
    ghost var r := LookupOnly(vol.State(), own, ino, fb);
    err, block := vol.Bmap(ino, fb, false);
  }

  /** A buffer with the contents of a block, or zeros. */
  method Fetch(vol: Volume, block: nat) returns (buf: array<Byte>)
    requires vol.Valid() && block < vol.nblocks
    ensures fresh(buf) && buf.Length == BLOCK && buf[..] == BlockBytes(vol.State(), block)
  {
    if block == 0 {
      buf := new Byte[BLOCK](_ => 0);
    } else {
      var data := vol.disk[block];
      buf := new Byte[BLOCK](i requires 0 <= i < BLOCK => data[i]);
    }
  }

  /** uiomove of part of a buffer to the request. */
  method Receive(uio: Uio, buf: array<Byte>, skip: nat, len: nat, ghost data: seq<Byte>)
    requires uio.Valid() && !uio.writing && len <= uio.resid && skip + len <= buf.Length && buf != uio.mem
    requires |data| == len && data == buf[..][skip..skip + len]
    modifies uio`iov, uio`offset, uio`resid, uio.mem, buf
    ensures Received(uio, old(uio.mem[..]), old(Addresses(uio.iov)), old(uio.offset), old(uio.resid), data)
  {
    assert buf[skip..skip + len] == data;
    uio.Move(buf, skip, len);
  }

  /** sfs_partialio for a read. */
  method ReadPartial(vol: Volume, uio: Uio, ino: nat, skip: nat, len: nat, ghost own: map<nat, Owner>)
    returns (err: Option<Errno>)
    requires vol.Valid() && Inv(vol.State(), own) && ino in vol.inodes && Apart(vol, uio)
    requires uio.Valid() && !uio.writing && len <= uio.resid && skip == BlockOffset(uio.offset) && skip + len <= BLOCK
    modifies vol`inodes, vol.freemap.v, vol.disk, uio`iov, uio`offset, uio`resid, uio.mem
    ensures vol.Valid() && vol.State() == old(vol.State()) && Apart(vol, uio)
    ensures PieceRead(vol, uio, ino, len, old(uio.mem[..]), old(Addresses(uio.iov)),
                      old(uio.offset), old(uio.resid), err)
  {
    var block;
    err, block := Look(vol, ino, FileBlock(uio.offset), own);
    StoreNothing(uio.mem[..], Addresses(uio.iov));
    if err == None {
      var iobuf := Fetch(vol, block);
      Receive(uio, iobuf, skip, len, PieceAt(vol.State(), ino, uio.offset, len));
    }
  }

  /** sfs_blockio for a read. */
  method ReadWhole(vol: Volume, uio: Uio, ino: nat, ghost own: map<nat, Owner>) returns (err: Option<Errno>)
    requires vol.Valid() && Inv(vol.State(), own) && ino in vol.inodes && Apart(vol, uio)
    requires uio.Valid() && !uio.writing && BLOCK <= uio.resid && BlockOffset(uio.offset) == 0
    modifies vol`inodes, vol.freemap.v, vol.disk, uio`iov, uio`offset, uio`resid, uio.mem
    ensures vol.Valid() && vol.State() == old(vol.State()) && Apart(vol, uio)
    ensures PieceRead(vol, uio, ino, BLOCK, old(uio.mem[..]), old(Addresses(uio.iov)),
                      old(uio.offset), old(uio.resid), err)
  {
    var block;
    err, block := Look(vol, ino, FileBlock(uio.offset), own);
    StoreNothing(uio.mem[..], Addresses(uio.iov));
    if err == None {
      ghost var piece := BlockBytes(vol.State(), block);
      assert piece[0..BLOCK] == piece;
      if block == 0 {
        uio.MoveZeros(BLOCK);
        assert piece == Zeros(BLOCK);
      } else {
        var sector := Fetch(vol, block);
        Receive(uio, sector, 0, BLOCK, piece);
      }
    }
  }

  // ---------------------------------------------------------------------------------------------
  // The pieces of a read

  function Then(got: seq<Byte>, r: ReadResult): ReadResult
  {
    if r.ReadPanic? then r else r.(data := got + r.data)
  }

  /** So far got has been read of the n bytes at off; left bytes at at are still to be read. */
  ghost predicate ReadUnderway(fs: Fs, ino: nat, off: nat, n: nat, got: seq<Byte>, at: nat, left: nat)
  {
    && Shaped(fs) && ino in fs.files && |got| + left == n && at == off + |got|
    && ReadPieces(fs, ino, off, n) == Then(got, ReadPieces(fs, ino, at, left))
  }

  lemma ReadPieceThenRest(fs: Fs, ino: nat, at: nat, left: nat, m: nat, mid: nat, rest: nat, r: MapResult)
    requires Shaped(fs) && ino in fs.files && left > 0 && m == PieceLength(at, left) && mid == at + m
    requires rest == left - m
    requires r == Bmap(fs, ino, FileBlock(at), false) && !r.MapPanic?
    ensures ReadPieces(fs, ino, at, left)
            == if r.Mapped? then Then(PieceAt(fs, ino, at, m), ReadPieces(fs, ino, mid, rest))
                else Read([], Some(r.err))
  {
    assert Advance(at, m) == mid && Rest(left, m) == rest;
  }

  lemma ReadStepTo(fs: Fs, ino: nat, off: nat, n: nat, got: seq<Byte>, at: nat, left: nat, m: nat, r: MapResult,
                   more: seq<Byte>, mid: nat, rest: nat)
    requires ReadUnderway(fs, ino, off, n, got, at, left) && left > 0 && m == PieceLength(at, left)
    requires r == Bmap(fs, ino, FileBlock(at), false) && !r.MapPanic? && mid == at + m && rest == left - m
    requires r.Mapped? ==> more == got + PieceAt(fs, ino, at, m)
    ensures r.Mapped? ==> ReadUnderway(fs, ino, off, n, more, mid, rest)
    ensures r.MapError? ==> ReadPieces(fs, ino, off, n) == Read(got, Some(r.err))
  {
    ReadPieceThenRest(fs, ino, at, left, m, mid, rest, r);
    if r.Mapped? {
      ThenThen(got, PieceAt(fs, ino, at, m), ReadPieces(fs, ino, mid, rest));
    } else {
      assert got + [] == got;
    }
  }

  lemma ThenThen(a: seq<Byte>, b: seq<Byte>, r: ReadResult)
    ensures Then(a, Then(b, r)) == Then(a + b, r)
  {
    if r.Read? {
      assert (a + b) + r.data == a + (b + r.data);
    }
  }

  lemma ReadEnds(fs: Fs, ino: nat, off: nat, n: nat, got: seq<Byte>, at: nat)
    requires ReadUnderway(fs, ino, off, n, got, at, 0)
    ensures ReadPieces(fs, ino, off, n) == Read(got, None)
  {
    assert got + [] == got;
  }

  /** What a read is about: the file, the offset and length, and the memory and addresses it fills. */
  datatype Job = Job(fs: Fs, ino: nat, off: nat, n: nat, mem: seq<Byte>, to: seq<nat>)

  ghost predicate Shared(vol: Volume, uio: Uio, j: Job, own: map<nat, Owner>)
    reads vol, vol.freemap, vol.freemap.v, vol.disk, uio, uio.mem
  {
    vol.Valid() && Apart(vol, uio) && Inv(j.fs, own) && vol.State() == j.fs && j.ino in j.fs.files
  }

  /** A read under way: got is received, the rest is still to come. */
  ghost predicate Reading(vol: Volume, uio: Uio, j: Job, got: seq<Byte>, own: map<nat, Owner>)
    reads vol, vol.freemap, vol.freemap.v, vol.disk, uio, uio.mem
  {
    && Shared(vol, uio, j, own) && Received(uio, j.mem, j.to, j.off, j.n, got)
    && ReadUnderway(j.fs, j.ino, j.off, j.n, got, uio.offset, uio.resid)
  }

  /** A read that has ended: got is received, and that is all there is, or all before an error. */
  ghost predicate Delivered(vol: Volume, uio: Uio, j: Job, got: seq<Byte>, err: Option<Errno>, own: map<nat, Owner>)
    reads vol, vol.freemap, vol.freemap.v, vol.disk, uio, uio.mem
  {
    && Shared(vol, uio, j, own) && Received(uio, j.mem, j.to, j.off, j.n, got)
    && ReadPieces(j.fs, j.ino, j.off, j.n) == Read(got, err)
  }

  lemma ReceivedOn(uio: Uio, j: Job, got: seq<Byte>, piece: seq<Byte>, mem: seq<Byte>, to: seq<nat>, off: nat,
                   resid: nat)
    requires |mem| == |j.mem| && (forall i | 0 <= i < |j.to| :: j.to[i] < |j.mem|)
    requires |got| + resid == j.n <= |j.to|
    requires mem == Store(j.mem, j.to[..|got|], got) && to == j.to[|got|..] && off == j.off + |got|
    requires Received(uio, mem, to, off, resid, piece)
    ensures Received(uio, j.mem, j.to, j.off, j.n, got + piece)
  {
    var i, k, all := |got|, |got| + |piece|, got + piece;
    ReceivedMore(j.mem, j.to, got, piece, i, k);
    assert |all| == k && uio.resid == j.n - k && uio.offset == j.off + k;
    assert Addresses(uio.iov) == j.to[k..] && uio.mem[..] == Store(j.mem, j.to[..k], all);
  }

  /** Where a read stood before the block at off. */
  ghost predicate Before(j: Job, got: seq<Byte>, mem: seq<Byte>, to: seq<nat>, off: nat, resid: nat)
  {
    && ReadUnderway(j.fs, j.ino, j.off, j.n, got, off, resid) && 0 < resid && j.n <= |j.to|
    && |mem| == |j.mem| && (forall i | 0 <= i < |j.to| :: j.to[i] < |j.mem|)
    && mem == Store(j.mem, j.to[..|got|], got) && to == j.to[|got|..]
  }

  lemma ReadMore(vol: Volume, uio: Uio, j: Job, got: seq<Byte>, piece: seq<Byte>, len: nat, mem: seq<Byte>,
                 to: seq<nat>, off: nat, resid: nat, more: seq<Byte>, own: map<nat, Owner>)
    requires Shared(vol, uio, j, own) && Before(j, got, mem, to, off, resid) && len == PieceLength(off, resid)
    requires Bmap(j.fs, j.ino, FileBlock(off), false).Mapped? && piece == PieceAt(j.fs, j.ino, off, len)
    requires more == got + piece
    requires Received(uio, mem, to, off, resid, piece)
    ensures Reading(vol, uio, j, more, own) && uio.resid == resid - len && uio.offset == off + len
  {
    var mid, rest := off + len, resid - len;
    var b := Bmap(j.fs, j.ino, FileBlock(off), false);
    ReadStepTo(j.fs, j.ino, j.off, j.n, got, off, resid, len, b, more, mid, rest);
    ReceivedOn(uio, j, got, piece, mem, to, off, resid);
    assert uio.offset == mid && uio.resid == rest;
  }

  lemma ReadStops(vol: Volume, uio: Uio, j: Job, got: seq<Byte>, mem: seq<Byte>, to: seq<nat>, off: nat, resid: nat,
                  r: MapResult, own: map<nat, Owner>)
    requires Shared(vol, uio, j, own) && Before(j, got, mem, to, off, resid)
    requires r == Bmap(j.fs, j.ino, FileBlock(off), false) && r.MapError? && Received(uio, mem, to, off, resid, [])
    ensures Delivered(vol, uio, j, got, Some(r.err), own)
  {
    var len := PieceLength(off, resid);
    ReadStepTo(j.fs, j.ino, j.off, j.n, got, off, resid, len, r, [], off + len, resid - len);
    ReceivedOn(uio, j, got, [], mem, to, off, resid);
    assert got + [] == got;
  }

  /** After one more block. */
  lemma OneMoreBlock(vol: Volume, uio: Uio, j: Job, got: seq<Byte>, len: nat, mem: seq<Byte>, to: seq<nat>, off: nat,
                     resid: nat, err: Option<Errno>, own: map<nat, Owner>)
    returns (got': seq<Byte>)
    requires Shared(vol, uio, j, own) && Before(j, got, mem, to, off, resid) && len == PieceLength(off, resid)
    requires PieceRead(vol, uio, j.ino, len, mem, to, off, resid, err)
    ensures err == None ==> Reading(vol, uio, j, got', own) && uio.resid == resid - len && uio.offset == off + len
    ensures err.Some? ==> Delivered(vol, uio, j, got', err, own)
  {
    var r := Bmap(j.fs, j.ino, FileBlock(off), false);
    if r.Mapped? {
      var piece := PieceAt(j.fs, j.ino, off, len);
      got' := got + piece;
      ReadMore(vol, uio, j, got, piece, len, mem, to, off, resid, got', own);
    } else {
      got' := got;
      ReadStops(vol, uio, j, got, mem, to, off, resid, r, own);
    }
  }

  lemma ReadingBefore(vol: Volume, uio: Uio, j: Job, got: seq<Byte>, own: map<nat, Owner>)
    requires Reading(vol, uio, j, got, own) && uio.resid > 0 && j.n <= |j.to|
    ensures Before(j, got, uio.mem[..], Addresses(uio.iov), uio.offset, uio.resid)
  {
  }

  method PartialReadStep(vol: Volume, uio: Uio, skip: nat, len: nat, ino: nat, ghost j: Job, ghost got: seq<Byte>,
                         ghost own: map<nat, Owner>)
    returns (err: Option<Errno>, ghost got': seq<Byte>)
    requires Reading(vol, uio, j, got, own) && uio.resid > 0 && j.n <= |j.to| && ino == j.ino
    requires skip == BlockOffset(uio.offset) && len == PieceLength(uio.offset, uio.resid)
    modifies vol`inodes, vol.freemap.v, vol.disk, uio`iov, uio`offset, uio`resid, uio.mem
    ensures err == None ==>
            Reading(vol, uio, j, got', own) && uio.resid == old(uio.resid) - len && uio.offset == old(uio.offset) + len
    ensures err.Some? ==> Delivered(vol, uio, j, got', err, own)
  {
    ghost var mem, to, off, resid := uio.mem[..], Addresses(uio.iov), uio.offset, uio.resid;
    ReadingBefore(vol, uio, j, got, own);
    err := ReadPartial(vol, uio, ino, skip, len, own);
    got' := OneMoreBlock(vol, uio, j, got, len, mem, to, off, resid, err, own);
  }

  method WholeReadStep(vol: Volume, uio: Uio, ino: nat, ghost j: Job, ghost got: seq<Byte>, ghost own: map<nat, Owner>)
    returns (err: Option<Errno>, ghost got': seq<Byte>)
    requires Reading(vol, uio, j, got, own) && uio.resid >= BLOCK && j.n <= |j.to| && ino == j.ino
    requires BlockOffset(uio.offset) == 0
    modifies vol`inodes, vol.freemap.v, vol.disk, uio`iov, uio`offset, uio`resid, uio.mem
    ensures err == None ==>
            Reading(vol, uio, j, got', own) && uio.resid == old(uio.resid) - BLOCK && BlockOffset(uio.offset) == 0
    ensures err.Some? ==> Delivered(vol, uio, j, got', err, own)
  {
    ghost var mem, to, off, resid := uio.mem[..], Addresses(uio.iov), uio.offset, uio.resid;
    ghost var next := off + BLOCK;
    WholePiece(off, resid, next);
    ReadingBefore(vol, uio, j, got, own);
    err := ReadWhole(vol, uio, ino, own);
    got' := OneMoreBlock(vol, uio, j, got, BLOCK, mem, to, off, resid, err, own);
    assert err == None ==> uio.offset == next;
  }

  method WholeReads(vol: Volume, uio: Uio, ino: nat, ghost j: Job, ghost got: seq<Byte>, ghost own: map<nat, Owner>)
    returns (err: Option<Errno>, ghost got': seq<Byte>)
    requires Reading(vol, uio, j, got, own) && j.n <= |j.to| && ino == j.ino && BlockOffset(uio.offset) == 0
    modifies vol`inodes, vol.freemap.v, vol.disk, uio`iov, uio`offset, uio`resid, uio.mem
    ensures err == None ==> Reading(vol, uio, j, got', own) && uio.resid < BLOCK && BlockOffset(uio.offset) == 0
    ensures err.Some? ==> Delivered(vol, uio, j, got', err, own)
  {
    err, got' := None, got;
    var nblocks := uio.resid / BLOCK;
    ghost var resid := uio.resid;
    for i := 0 to nblocks
      invariant Reading(vol, uio, j, got', own) && BlockOffset(uio.offset) == 0 && err == None
      invariant uio.resid == BlocksLeft(resid, i)
    {
      BlocksLeftIs(resid, i);
      err, got' := WholeReadStep(vol, uio, ino, j, got', own);
      if err.Some? {
        return;
      }
    }
    BlocksLeftIs(resid, nblocks);
  }

  /** The pieces of a read, one after the other. */
  method ReadAll(vol: Volume, uio: Uio, ino: nat, ghost j: Job, ghost own: map<nat, Owner>)
    returns (err: Option<Errno>, ghost got: seq<Byte>)
    requires Reading(vol, uio, j, [], own) && uio.resid > 0 && j.n <= |j.to| && ino == j.ino
    modifies vol`inodes, vol.freemap.v, vol.disk, uio`iov, uio`offset, uio`resid, uio.mem
    ensures Delivered(vol, uio, j, got, err, own)
  {
    err, got := None, [];
    var blkoff := uio.offset % BLOCK;
    if blkoff != 0 {
      var len := BLOCK - blkoff;
      if len > uio.resid {
        len := uio.resid;
      }
      ghost var next := uio.offset + len;
      LeadingPiece(uio.offset, uio.resid, len, next);
      err, got := PartialReadStep(vol, uio, blkoff, len, ino, j, got, own);
      if err.Some? {
        return;
      }
      assert uio.offset == next;
    }
    if uio.resid > 0 {
      err, got := WholeReads(vol, uio, ino, j, got, own);
      if err.Some? {
        return;
      }
      if uio.resid > 0 {
        var len := uio.resid;
        TrailingPiece(uio.offset, len);
        err, got := PartialReadStep(vol, uio, 0, len, ino, j, got, own);
        if err.Some? {
          return;
        }
      }
    }
    ReadEnds(j.fs, j.ino, j.off, j.n, got, uio.offset);
  }

  lemma ReadingFirst(vol: Volume, uio: Uio, j: Job, own: map<nat, Owner>)
    requires Shared(vol, uio, j, own) && uio.Valid() && !uio.writing
    requires j.off == uio.offset && j.n == uio.resid && j.mem == uio.mem[..] && j.to == Addresses(uio.iov)
    ensures Reading(vol, uio, j, [], own) && j.n <= |j.to|
  {
    StoreNothing(j.mem, j.to);
    var r := ReadPieces(j.fs, j.ino, j.off, j.n);
    assert r.Read? ==> [] + r.data == r.data;
  }

  /** A read of no bytes. */
  method ReadNone(vol: Volume, uio: Uio, ino: nat, ghost own: map<nat, Owner>) returns (err: Option<Errno>)
    requires vol.Valid() && Inv(vol.State(), own) && ino in vol.inodes && Apart(vol, uio) && uio.Valid() && !uio.writing
    requires uio.resid == 0
    requires uio.offset < vol.inodes[ino].size
    modifies vol`inodes, vol.freemap.v, vol.disk, uio`iov, uio`offset, uio`resid, uio.mem
    ensures vol.Valid() && vol.State() == old(vol.State())
    ensures ReadFile(vol.State(), ino, old(uio.offset), 0) == Read([], err)
    ensures Received(uio, old(uio.mem[..]), old(Addresses(uio.iov)), old(uio.offset), 0, [])
  {
    err := None;
    StoreNothing(uio.mem[..], Addresses(uio.iov));
    var blkoff := uio.offset % BLOCK;
    if blkoff != 0 {
      err := ReadPartial(vol, uio, ino, blkoff, 0, own);
    }
  }

  /** A read of what there is. */
  method ReadSome(vol: Volume, uio: Uio, ino: nat, ghost own: map<nat, Owner>, ghost n: nat)
    returns (err: Option<Errno>, ghost got: seq<Byte>)
    requires vol.Valid() && Inv(vol.State(), own) && ino in vol.inodes && Apart(vol, uio) && uio.Valid() && !uio.writing
    requires uio.resid > 0
    requires uio.offset < vol.inodes[ino].size && n > 0 && uio.resid == Served(vol.inodes[ino].size, uio.offset, n)
    modifies vol`inodes, vol.freemap.v, vol.disk, uio`iov, uio`offset, uio`resid, uio.mem
    ensures vol.Valid() && vol.State() == old(vol.State())
    ensures ReadFile(vol.State(), ino, old(uio.offset), n) == Read(got, err)
    ensures Received(uio, old(uio.mem[..]), old(Addresses(uio.iov)), old(uio.offset), old(uio.resid), got)
  {
    ghost var j := Job(vol.State(), ino, uio.offset, uio.resid, uio.mem[..], Addresses(uio.iov));
    ReadingFirst(vol, uio, j, own);
    err, got := ReadAll(vol, uio, ino, j, own);
  }

  /** sfs_io for a read: the request receives the bytes of the flat file from its offset on. */
  method ReadIo(vol: Volume, uio: Uio, ino: nat, ghost own: map<nat, Owner>)
    returns (err: Option<Errno>, ghost got: seq<Byte>)
    requires vol.Valid() && Inv(vol.State(), own) && ino in vol.inodes && Apart(vol, uio) && uio.Valid() && !uio.writing
    modifies vol`inodes, vol.freemap.v, vol.disk, uio`iov, uio`offset, uio`resid, uio.mem
    ensures vol.Valid() && vol.State() == old(vol.State())
    ensures ReadFile(vol.State(), ino, old(uio.offset), old(uio.resid)) == Read(got, err)
    ensures Received(uio, old(uio.mem[..]), old(Addresses(uio.iov)), old(uio.offset), old(uio.resid), got)
  {
    err, got := None, [];
    StoreNothing(uio.mem[..], Addresses(uio.iov));
    var size, n, extra := vol.inodes[ino].size, uio.resid, 0;
    if uio.offset >= size {
      return;
    }
    if n == 0 {
      err := ReadNone(vol, uio, ino, own);
      return;
    }
    if uio.offset + n > size {
      extra := uio.offset + n - size;
      uio.resid := uio.resid - extra;
    }
    err, got := ReadSome(vol, uio, ino, own, n);
    uio.resid := uio.resid + extra;
  }
}
