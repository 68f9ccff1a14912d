/** sfs_io in place: a leading partial block, whole blocks, a trailing partial block, moved between the
    disk and the buffers of a request. */
module SfsIoMachine {
  import opened Common
  import opened SfsDisk
  import opened SfsState
  import opened SfsOwnership
  import opened SfsIo
  import opened SfsMachine
  import opened Uio

  /** The volume and the request share no memory. */
  ghost predicate Apart(vol: Volume, uio: Uio)
    reads vol, uio
  {
    (uio.mem as object) != vol.disk && (uio.mem as object) != vol.freemap.v
  }

  /** The bytes a write request still has to write. */
  ghost function Pending(uio: Uio): (data: seq<Byte>)
    requires uio.Valid()
    reads uio, uio.mem
    ensures |data| == uio.resid
  {
    Load(uio.mem[..], Addresses(uio.iov)[..uio.resid])
  }

  lemma PendingFirst(mem: seq<Byte>, at: seq<nat>, n: nat, m: nat)
    requires m <= n <= |at| && forall i | 0 <= i < |at| :: at[i] < |mem|
    ensures Load(mem, at[..n])[..m] == Load(mem, at[..m]) && Load(mem, at[..n])[m..] == Load(mem, at[m..][..n - m])
  {
  }

  /** What mapping and changing one block left. */
  ghost predicate PieceEnds(vol: Volume, r: MapResult, err: Option<Errno>)
    reads vol, vol.freemap, vol.freemap.v, vol.disk
  {
    match r
    case Mapped(fs, _) => vol.State() == fs && err == None
    case MapError(fs, e) => vol.State() == fs && err == Some(e)
    case MapPanic => false
  }

  /** The request has moved on by n bytes. */
  ghost predicate Advanced(uio: Uio, off: nat, resid: nat, data: seq<Byte>, n: nat)
    reads uio, uio.mem
  {
    uio.Valid() && n <= |data| && uio.resid == resid - n && uio.offset == off + n && Pending(uio) == data[n..]
  }

  lemma PutIsSplice(b: Block, skip: nat, data: seq<Byte>)
    requires skip + |data| <= BLOCK
    ensures Put(b, skip, data) == Splice(b, skip, data)
  {
  }

  /** sfs_partialio for a write. */
  method WritePartial(vol: Volume, uio: Uio, ino: nat, skip: nat, len: nat) returns (err: Option<Errno>)
    requires vol.Valid() && Shaped(vol.State()) && ino in vol.inodes && Apart(vol, uio)
    requires uio.Valid() && uio.writing && len <= uio.resid && skip == BlockOffset(uio.offset) && skip + len <= BLOCK
    requires !WritePiece(vol.State(), ino, uio.offset, Pending(uio)[..len]).MapPanic?
    modifies vol`inodes, vol.freemap.v, vol.disk, uio`iov, uio`offset, uio`resid, uio.mem
    ensures vol.Valid() && uio.Valid() && Apart(vol, uio)
    ensures PieceEnds(vol, WritePiece(old(vol.State()), ino, old(uio.offset), old(Pending(uio)[..len])), err)
    ensures var n := if err == None then len else 0;
            Advanced(uio, old(uio.offset), old(uio.resid), old(Pending(uio)), n)
  {
    ghost var mem, at, n := uio.mem[..], Addresses(uio.iov), uio.resid;
    var fileblock := FileBlock(uio.offset);
    var block;
    err, block := vol.Bmap(ino, fileblock, true);
    if err.Some? {
      return;
    }
    ghost var fs1 := vol.State();
    var old' := vol.disk[block];
    var iobuf := new Byte[BLOCK](i requires 0 <= i < BLOCK => old'[i]);
    assert iobuf[..] == old';
    PendingFirst(mem, at, n, len);
    PutIsSplice(old', skip, Load(mem, at[..len]));
    uio.Move(iobuf, skip, len);
    vol.disk[block] := iobuf[..];
    assert vol.disk[..] == fs1.disk[block := iobuf[..]];
  }

  /** sfs_blockio for a write. */
  method WriteWhole(vol: Volume, uio: Uio, ino: nat) returns (err: Option<Errno>)
    requires vol.Valid() && Shaped(vol.State()) && ino in vol.inodes && Apart(vol, uio)
    requires uio.Valid() && uio.writing && BLOCK <= uio.resid && BlockOffset(uio.offset) == 0
    requires !WritePiece(vol.State(), ino, uio.offset, Pending(uio)[..BLOCK]).MapPanic?
    modifies vol`inodes, vol.freemap.v, vol.disk, uio`iov, uio`offset, uio`resid, uio.mem
    ensures vol.Valid() && uio.Valid() && Apart(vol, uio)
    ensures PieceEnds(vol, WritePiece(old(vol.State()), ino, old(uio.offset), old(Pending(uio)[..BLOCK])), err)
    ensures Advanced(uio, old(uio.offset), old(uio.resid), old(Pending(uio)), if err == None then BLOCK else 0)
  {
    ghost var mem, at, n := uio.mem[..], Addresses(uio.iov), uio.resid;
    var fileblock := FileBlock(uio.offset);
    var block;
    err, block := vol.Bmap(ino, fileblock, true);
    if err.Some? {
      return;
    }
    ghost var fs1 := vol.State();
    var sector := new Byte[BLOCK](_ => 0);
    PendingFirst(mem, at, n, BLOCK);
    ghost var data := Load(mem, at[..BLOCK]);
    assert Put(sector[..], 0, data) == data == Splice(fs1.disk[block], 0, data);
    uio.Move(sector, 0, BLOCK);
    vol.disk[block] := sector[..];
    assert vol.disk[..] == fs1.disk[block := sector[..]];
  }

  // ---------------------------------------------------------------------------------------------
  // The pieces of a write

  function Plus(done: nat, r: WriteResult): WriteResult
  {
    if r.WritePanic? then r else r.(done := done + r.done)
  }

  /** One piece of a write, at any offset. */
  lemma PieceAnywhere(fs: Fs, own: map<nat, Owner>, ino: nat, off: nat, piece: seq<Byte>)
    returns (r: MapResult, own': map<nat, Owner>)
    requires Inv(fs, own) && ino in fs.files && BlockOffset(off) + |piece| <= BLOCK
    ensures r == WritePiece(fs, ino, off, piece) && !r.MapPanic? && Inv(r.fs, own') && ino in r.fs.files
  {
    var k := LandingIs(off);
    BlocksWrap(off, Landing(off), k);
    own' := WritePieceKeeps(fs, own, ino, Landing(off), piece);
    r := WritePiece(fs, ino, off, piece);
  }

  lemma PieceThenRest(fs: Fs, ino: nat, off: nat, data: seq<Byte>, m: nat, mid: nat, r: MapResult)
    requires Shaped(fs) && ino in fs.files && data != [] && m == PieceLength(off, |data|) && mid == off + m
    requires r == WritePiece(fs, ino, off, data[..m]) && !r.MapPanic? && Shaped(r.fs) && ino in r.fs.files
    ensures WritePieces(fs, ino, off, data)
            == if r.Mapped? then Plus(m, WritePieces(r.fs, ino, mid, data[m..])) else Wrote(r.fs, 0, Some(r.err))
  {
    FirstPiece(fs, ino, off, data, m, mid, r, if r.Mapped? then WritePieces(r.fs, ino, mid, data[m..]) else WritePanic);
  }

  /** So far done bytes of the whole write are done, and rest is still to be written at offset at. */
  ghost predicate Underway(fs0: Fs, ino: nat, off: nat, data: seq<Byte>, fs: Fs, done: nat, at: nat, rest: seq<Byte>)
  {
    && Shaped(fs0) && ino in fs0.files && Shaped(fs) && ino in fs.files
    && done <= |data| && at == off + done && rest == data[done..]
    && WritePieces(fs0, ino, off, data) == Plus(done, WritePieces(fs, ino, at, rest))
  }

  lemma UnderwayStep(fs0: Fs, ino: nat, off: nat, data: seq<Byte>, fs: Fs, done: nat, at: nat, rest: seq<Byte>, m: nat,
                     r: MapResult, next: nat, mid: nat, tail: seq<Byte>)
    requires Underway(fs0, ino, off, data, fs, done, at, rest) && rest != [] && m == PieceLength(at, |rest|)
    requires r == WritePiece(fs, ino, at, rest[..m]) && !r.MapPanic? && Shaped(r.fs) && ino in r.fs.files
    requires next == done + m && mid == at + m && tail == rest[m..]
    ensures r.Mapped? ==> Underway(fs0, ino, off, data, r.fs, next, mid, tail)
    ensures r.MapError? ==> WritePieces(fs0, ino, off, data) == Wrote(r.fs, done, Some(r.err))
  {
    PieceThenRest(fs, ino, at, rest, m, mid, r);
    assert tail == data[next..];
  }

  /** Everything is written: the rest is empty. */
  lemma UnderwayEnds(fs0: Fs, ino: nat, off: nat, data: seq<Byte>, fs: Fs, done: nat, at: nat)
    requires Underway(fs0, ino, off, data, fs, done, at, [])
    ensures WritePieces(fs0, ino, off, data) == Wrote(fs, |data|, None) && done == |data|
  {
    assert |data[done..]| == 0;
    assert WritePieces(fs, ino, at, []) == Wrote(fs, 0, None);
  }

  /** Where a write stands: what is done is done, what is not is pending, and the volume is in order. */
  ghost predicate Standing(vol: Volume, uio: Uio, ino: nat, fs0: Fs, off: nat, data: seq<Byte>, own: map<nat, Owner>)
    reads vol, vol.freemap, vol.freemap.v, vol.disk, uio, uio.mem
  {
    && vol.Valid() && uio.Valid() && Apart(vol, uio) && uio.writing && Inv(vol.State(), own) && uio.resid <= |data|
    && Underway(fs0, ino, off, data, vol.State(), |data| - uio.resid, uio.offset, Pending(uio))
  }

  /** How a write ended. */
  ghost predicate Stopped(vol: Volume, uio: Uio, ino: nat, fs0: Fs, off: nat, data: seq<Byte>, err: Option<Errno>,
                          own: map<nat, Owner>)
    reads vol, vol.freemap, vol.freemap.v, vol.disk, uio, uio.mem
  {
    && vol.Valid() && uio.Valid() && Apart(vol, uio) && Inv(vol.State(), own) && ino in vol.inodes
    && uio.resid <= |data|
    && Shaped(fs0) && ino in fs0.files && uio.offset == off + (|data| - uio.resid)
    && WritePieces(fs0, ino, off, data) == Wrote(vol.State(), |data| - uio.resid, err)
  }

  lemma GoesOn(vol: Volume, uio: Uio, ino: nat, fs0: Fs, off: nat, data: seq<Byte>, next: nat, mid: nat,
               tail: seq<Byte>, own: map<nat, Owner>)
    requires Underway(fs0, ino, off, data, vol.State(), next, mid, tail) && next + |tail| == |data|
    requires Inv(vol.State(), own)
    requires vol.Valid() && Apart(vol, uio) && uio.writing && uio.Valid() && uio.resid == |tail| && uio.offset == mid
    requires Pending(uio) == tail
    ensures Standing(vol, uio, ino, fs0, off, data, own)
  {
    assert |data| - uio.resid == next;
  }

  lemma StepTo(vol: Volume, uio: Uio, ino: nat, fs0: Fs, off: nat, data: seq<Byte>, fs: Fs, done: nat, at: nat,
               rest: seq<Byte>, len: nat, r: MapResult, err: Option<Errno>, own: map<nat, Owner>)
    requires Underway(fs0, ino, off, data, fs, done, at, rest) && rest != [] && len == PieceLength(at, |rest|)
    requires done + |rest| == |data|
    requires r == WritePiece(fs, ino, at, rest[..len]) && !r.MapPanic? && Inv(r.fs, own) && ino in r.fs.files
    requires vol.Valid() && uio.Valid() && Apart(vol, uio) && uio.writing && PieceEnds(vol, r, err)
    requires Advanced(uio, at, |rest|, rest, if err == None then len else 0)
    ensures err == None ==> Standing(vol, uio, ino, fs0, off, data, own)
    ensures err.Some? ==> Stopped(vol, uio, ino, fs0, off, data, err, own)
  {
    var next, mid, tail := done + len, at + len, rest[len..];
    UnderwayStep(fs0, ino, off, data, fs, done, at, rest, len, r, next, mid, tail);
    if err == None {
      GoesOn(vol, uio, ino, fs0, off, data, next, mid, tail, own);
    } else {
      assert |data| - uio.resid == done && uio.offset == at;
    }
  }

  /** One partial block. */
  method PartialStep(vol: Volume, uio: Uio, ino: nat, skip: nat, len: nat, ghost fs0: Fs, ghost off: nat,
                     ghost data: seq<Byte>, ghost own: map<nat, Owner>)
    returns (err: Option<Errno>, ghost own': map<nat, Owner>)
    requires Standing(vol, uio, ino, fs0, off, data, own) && uio.resid > 0
    requires skip == BlockOffset(uio.offset) && len == PieceLength(uio.offset, uio.resid)
    modifies vol`inodes, vol.freemap.v, vol.disk, uio`iov, uio`offset, uio`resid, uio.mem
    ensures err == None ==>
              && Standing(vol, uio, ino, fs0, off, data, own')
              && uio.resid == old(uio.resid) - len && uio.offset == old(uio.offset) + len
    ensures err.Some? ==> Stopped(vol, uio, ino, fs0, off, data, err, own')
  {
    ghost var fs, at, rest, done := vol.State(), uio.offset, Pending(uio), |data| - uio.resid;
    ghost var r;
    ghost var next, left := at + len, uio.resid - len;
    r, own' := PieceAnywhere(fs, own, ino, at, rest[..len]);
    err := WritePartial(vol, uio, ino, skip, len);
    assert PieceEnds(vol, r, err) && Advanced(uio, at, |rest|, rest, if err == None then len else 0);
    StepTo(vol, uio, ino, fs0, off, data, fs, done, at, rest, len, r, err, own');
    assert err == None ==> uio.offset == next && uio.resid == left;
  }

  lemma WholePiece(at: nat, n: nat, next: nat)
    requires BlockOffset(at) == 0 && n >= BLOCK && next == at + BLOCK
    ensures PieceLength(at, n) == BLOCK && BlockOffset(next) == 0
  {
  }

  lemma LeadingPiece(at: nat, n: nat, len: nat, next: nat)
    requires n > 0 && len == (if BLOCK - BlockOffset(at) > n then n else BLOCK - BlockOffset(at)) && next == at + len
    ensures PieceLength(at, n) == len && (len < n ==> BlockOffset(next) == 0)
  {
  }

  lemma TrailingPiece(at: nat, n: nat)
    requires BlockOffset(at) == 0 && n < BLOCK
    ensures PieceLength(at, n) == n
  {
  }

  /** One whole block. */
  method WholeStep(vol: Volume, uio: Uio, ino: nat, ghost fs0: Fs, ghost off: nat, ghost data: seq<Byte>,
                   ghost own: map<nat, Owner>)
    returns (err: Option<Errno>, ghost own': map<nat, Owner>)
    requires Standing(vol, uio, ino, fs0, off, data, own) && uio.resid >= BLOCK && BlockOffset(uio.offset) == 0
    modifies vol`inodes, vol.freemap.v, vol.disk, uio`iov, uio`offset, uio`resid, uio.mem
    ensures err == None ==>
              && Standing(vol, uio, ino, fs0, off, data, own')
              && uio.resid == old(uio.resid) - BLOCK && BlockOffset(uio.offset) == 0
    ensures err.Some? ==> Stopped(vol, uio, ino, fs0, off, data, err, own')
  {
    ghost var fs, at, rest, done := vol.State(), uio.offset, Pending(uio), |data| - uio.resid;
    ghost var r;
    ghost var next := at + BLOCK;
    WholePiece(at, |rest|, next);
    r, own' := PieceAnywhere(fs, own, ino, at, rest[..BLOCK]);
    err := WriteWhole(vol, uio, ino);
    StepTo(vol, uio, ino, fs0, off, data, fs, done, at, rest, BLOCK, r, err, own');
    assert err == None ==> uio.offset == next;
  }

  /** The loop over whole blocks. */
  method WholeBlocks(vol: Volume, uio: Uio, ino: nat, ghost fs0: Fs, ghost off: nat, ghost data: seq<Byte>,
                     ghost own: map<nat, Owner>)
    returns (err: Option<Errno>, ghost own': map<nat, Owner>)
    requires Standing(vol, uio, ino, fs0, off, data, own) && BlockOffset(uio.offset) == 0
    modifies vol`inodes, vol.freemap.v, vol.disk, uio`iov, uio`offset, uio`resid, uio.mem
    ensures err == None ==>
            Standing(vol, uio, ino, fs0, off, data, own') && uio.resid < BLOCK && BlockOffset(uio.offset) == 0
    ensures err.Some? ==> Stopped(vol, uio, ino, fs0, off, data, err, own')
  {
    err, own' := None, own;
    var nblocks := uio.resid / BLOCK;
    ghost var resid := uio.resid;
    for i := 0 to nblocks
      invariant Standing(vol, uio, ino, fs0, off, data, own') && BlockOffset(uio.offset) == 0 && err == None
      invariant uio.resid == BlocksLeft(resid, i)
    {
      BlocksLeftIs(resid, i);
      err, own' := WholeStep(vol, uio, ino, fs0, off, data, own');
      if err.Some? {
        return;
      }
    }
    BlocksLeftIs(resid, nblocks);
  }

  /** What is left of resid bytes after i whole blocks. */
  ghost function BlocksLeft(resid: nat, i: nat): int { resid - i * BLOCK }

  lemma BlocksLeftIs(resid: nat, i: nat)
    requires i <= resid / BLOCK
    ensures if i < resid / BLOCK
            then BlocksLeft(resid, i) >= BLOCK && BlocksLeft(resid, i + 1) == BlocksLeft(resid, i) - BLOCK
            else 0 <= BlocksLeft(resid, i) < BLOCK
  {
  }

  /** The pieces of a write, one after the other. */
  method WriteAll(vol: Volume, uio: Uio, ino: nat, ghost own: map<nat, Owner>)
    returns (err: Option<Errno>, ghost own': map<nat, Owner>)
    requires vol.Valid() && uio.Valid() && Apart(vol, uio) && uio.writing && Inv(vol.State(), own) && ino in vol.inodes
    requires uio.resid > 0
    modifies vol`inodes, vol.freemap.v, vol.disk, uio`iov, uio`offset, uio`resid, uio.mem
    ensures Stopped(vol, uio, ino, old(vol.State()), old(uio.offset), old(Pending(uio)), err, own')
  {
    ghost var fs0, off, data := vol.State(), uio.offset, Pending(uio);
    err, own' := None, own;
    StandingFirst(vol, uio, ino, own);
    var blkoff := uio.offset % BLOCK;
    if blkoff != 0 {
      var len := BLOCK - blkoff;
      if len > uio.resid {
        len := uio.resid;
      }
      ghost var next := uio.offset + len;
      LeadingPiece(uio.offset, uio.resid, len, next);
      err, own' := PartialStep(vol, uio, ino, blkoff, len, fs0, off, data, own');
      if err.Some? {
        return;
      }
      assert uio.offset == next;
    }
    if uio.resid > 0 {
      err, own' := WholeBlocks(vol, uio, ino, fs0, off, data, own');
      if err.Some? {
        return;
      }
      if uio.resid > 0 {
        var len := uio.resid;
        TrailingPiece(uio.offset, len);
        err, own' := PartialStep(vol, uio, ino, 0, len, fs0, off, data, own');
        if err.Some? {
          return;
        }
      }
    }
    StoppedAtEnd(vol, uio, ino, fs0, off, data, own');
  }

  lemma StoppedAtEnd(vol: Volume, uio: Uio, ino: nat, fs0: Fs, off: nat, data: seq<Byte>, own: map<nat, Owner>)
    requires Standing(vol, uio, ino, fs0, off, data, own) && uio.resid == 0
    ensures Stopped(vol, uio, ino, fs0, off, data, None, own)
  {
    assert Pending(uio) == [];
    UnderwayEnds(fs0, ino, off, data, vol.State(), |data|, uio.offset);
  }

  lemma StandingFirst(vol: Volume, uio: Uio, ino: nat, own: map<nat, Owner>)
    requires vol.Valid() && uio.Valid() && Apart(vol, uio) && uio.writing && Inv(vol.State(), own) && ino in vol.inodes
    ensures Standing(vol, uio, ino, vol.State(), uio.offset, Pending(uio), own)
  {
    var data := Pending(uio);
    assert data[0..] == data;
  }

  lemma WriteFileIs(fs: Fs, ino: nat, off: nat, data: seq<Byte>, p: WriteResult)
    requires Shaped(fs) && ino in fs.files && data != [] && p == WritePieces(fs, ino, off, data) && p.Wrote?
    requires ino in p.fs.files
    ensures WriteFile(fs, ino, off, data) == p.(fs := Extend(p.fs, ino, off, p.done))
  {
  }

  /** The end of sfs_io: a write that did anything may have made the file longer. */
  method SetSize(vol: Volume, uio: Uio, ino: nat, orig: nat, ghost off: nat, ghost done: nat)
    requires vol.Valid() && ino in vol.inodes && uio.resid <= orig && done == orig - uio.resid
    requires uio.offset == off + done
    modifies vol`inodes
    ensures vol.Valid() && vol.State() == Extend(old(vol.State()), ino, off, done)
  {
    if uio.resid != orig && uio.offset > vol.inodes[ino].size {
      vol.inodes := vol.inodes[ino := vol.inodes[ino].(size := Word32(uio.offset))];
    }
  }

  /** sfs_io for a write. */
  method Write(vol: Volume, uio: Uio, ino: nat, ghost own: map<nat, Owner>)
    returns (err: Option<Errno>, ghost own': map<nat, Owner>)
    requires vol.Valid() && uio.Valid() && Apart(vol, uio) && uio.writing && Inv(vol.State(), own) && ino in vol.inodes
    modifies vol`inodes, vol.freemap.v, vol.disk, uio`iov, uio`offset, uio`resid, uio.mem
    ensures vol.Valid() && uio.Valid() && uio.resid <= old(uio.resid)
    ensures uio.offset == old(uio.offset) + (old(uio.resid) - uio.resid)
    ensures WriteFile(old(vol.State()), ino, old(uio.offset), old(Pending(uio)))
            == Wrote(vol.State(), old(uio.resid) - uio.resid, err)
    ensures Inv(vol.State(), own')
  {
    ghost var fs, off, data := vol.State(), uio.offset, Pending(uio);
    var orig := uio.resid;
    if orig == 0 {
      err, own' := WriteNone(vol, uio, ino, own);
      return;
    }
    err, own' := WriteAll(vol, uio, ino, own);
    ghost var fs1, done := vol.State(), orig - uio.resid;
    WriteFileIs(fs, ino, off, data, Wrote(fs1, done, err));
    ExtendKeeps(fs1, own', ino, off, done);
    SetSize(vol, uio, ino, orig, off, done);
  }

  /** A write of no bytes. */
  method WriteNone(vol: Volume, uio: Uio, ino: nat, ghost own: map<nat, Owner>)
    returns (err: Option<Errno>, ghost own': map<nat, Owner>)
    requires vol.Valid() && uio.Valid() && Apart(vol, uio) && uio.writing && Inv(vol.State(), own) && ino in vol.inodes
    requires uio.resid == 0
    modifies vol`inodes, vol.freemap.v, vol.disk, uio`iov, uio`offset, uio`resid, uio.mem
    ensures vol.Valid() && uio.Valid() && uio.resid == 0 && uio.offset == old(uio.offset)
    ensures WriteFile(old(vol.State()), ino, old(uio.offset), []) == Wrote(vol.State(), 0, err)
    ensures Inv(vol.State(), own')
  {
    err, own' := None, own;
    var blkoff := uio.offset % BLOCK;
    assert Pending(uio)[..0] == [];
    if blkoff != 0 {
      ghost var r;
      r, own' := PieceAnywhere(vol.State(), own, ino, uio.offset, []);
      err := WritePartial(vol, uio, ino, blkoff, 0);
    } else {
      assert WritePieces(vol.State(), ino, uio.offset, []) == Wrote(vol.State(), 0, None);
    }
  }
}
