/** Block allocation and the block map keep every block's single owner. */
module SfsOwnership {
  import opened SfsDisk
  import opened SfsState

  /** All files keep their block maps and the contents of their blocks. */
  ghost predicate SameFiles(fs: Fs, fs': Fs)
    requires Shaped(fs) && Shaped(fs')
  {
    && fs'.files.Keys == fs.files.Keys && fs'.nblocks == fs.nblocks
    && (forall ino, fb: nat | ino in fs.files :: ContentOf(fs', fs'.files[ino], fb) == ContentOf(fs, fs.files[ino], fb))
    && (forall ino | ino in fs.files ::
          fs'.files[ino].size == fs.files[ino].size && fs'.files[ino].kind == fs.files[ino].kind
          && fs'.files[ino].links == fs.files[ino].links)
  }

  /** Blocks that hold inodes are not written. */
  predicate InodesKept(fs: Fs, fs': Fs, own: map<nat, Owner>)
  {
    && |fs'.disk| == |fs.disk|
    && forall b | b in own && b < |fs.disk| && own[b].InodeOf? :: fs'.disk[b] == fs.disk[b]
  }

  /** No block in use is touched. */
  predicate DiskKept(fs: Fs, fs': Fs, own: map<nat, Owner>)
  {
    |fs'.disk| == |fs.disk| && forall b | b in own && b < |fs.disk| :: fs'.disk[b] == fs.disk[b]
  }

  lemma SlotsKept(fs: Fs, fs': Fs, own: map<nat, Owner>, ino: nat)
    requires Inv(fs, own) && ino in fs.files && DiskKept(fs, fs', own)
    ensures forall j | 0 <= j < PER_INDIRECT :: SlotOf(fs', fs.files[ino], j) == SlotOf(fs, fs.files[ino], j)
  {
    assert FileOwns(fs, own, ino);
  }

  /** A block mapped by a file is one of its data blocks. */
  lemma MappedOwner(fs: Fs, own: map<nat, Owner>, ino: nat, fb: nat)
    requires Inv(fs, own) && ino in fs.files && MapOf(fs, fs.files[ino], fb) != 0
    ensures fb < MAX_BLOCKS
    ensures Owned(own, MapOf(fs, fs.files[ino], fb), if fb < NDIRECT then Direct(ino, fb) else Slot(ino, fb - NDIRECT))
    ensures MapOf(fs, fs.files[ino], fb) < fs.nblocks
  {
    assert FileOwns(fs, own, ino);
  }

  /** An inode that is unchanged keeps its contents when no block in use is touched. */
  lemma ContentKept(fs: Fs, fs': Fs, own: map<nat, Owner>, ino: nat, fb: nat)
    requires Inv(fs, own) && ino in fs.files && DiskKept(fs, fs', own)
    ensures MapOf(fs', fs.files[ino], fb) == MapOf(fs, fs.files[ino], fb)
    ensures ContentOf(fs', fs.files[ino], fb) == ContentOf(fs, fs.files[ino], fb)
  {
    SlotsKept(fs, fs', own, ino);
    if MapOf(fs, fs.files[ino], fb) != 0 {
      MappedOwner(fs, own, ino, fb);
    }
  }

  // ---------------------------------------------------------------------------------------------
  // Attaching a fresh block

  lemma FreshUnowned(fs: Fs, own: map<nat, Owner>)
    requires Inv(fs, own) && !Full(fs)
    ensures var b := NextBlock(fs);
            && b !in own && b != 0 && b < fs.nblocks && DiskKept(fs, TakeBlock(fs), own)
            && (forall ino | ino in fs.files :: b != ino)
  {
    forall ino | ino in fs.files ensures NextBlock(fs) != ino {
      assert FileOwns(fs, own, ino);
    }
  }

  /** Files other than ino own what they owned. */
  lemma OtherFile(fs: Fs, fs': Fs, own: map<nat, Owner>, own': map<nat, Owner>, b: nat, k: nat)
    requires Inv(fs, own) && Shaped(fs') && k in fs.files && k in fs'.files && fs'.files[k] == fs.files[k]
    requires DiskKept(fs, fs', own) && b !in own && b in own' && own' == own[b := own'[b]]
    ensures FileOwns(fs', own', k)
  {
    assert FileOwns(fs, own, k);
    SlotsKept(fs, fs', own, k);
  }

  lemma BackedKept(fs: Fs, fs': Fs, own: map<nat, Owner>, c: nat)
    requires Inv(fs, own) && Shaped(fs') && fs'.nblocks == fs.nblocks && c in own && DiskKept(fs, fs', own)
    requires forall ino | ino in fs.files :: ino in fs'.files
    requires forall ino | ino in fs.files :: PointersKept(fs.files[ino], fs'.files[ino])
    ensures Backed(fs', c, own[c])
  {
    assert Backed(fs, c, own[c]);
    if own[c].Slot? {
      SlotsKept(fs, fs', own, own[c].ino);
      assert FileOwns(fs, own, own[c].ino);
    }
  }

  /** Pointers that are not null stay. */
  predicate PointersKept(f: Inode, f': Inode)
    requires |f.direct| == NDIRECT && |f'.direct| == NDIRECT
  {
    && (forall i | 0 <= i < NDIRECT && f.direct[i] != 0 :: f'.direct[i] == f.direct[i])
    && (f.indirect != 0 ==> f'.indirect == f.indirect)
  }

  /** The fresh block, attached to file ino by changing its inode to f. */
  function Attached(fs: Fs, ino: nat, f: Inode): Fs
    requires |fs.disk| == fs.nblocks && !Full(fs)
  {
    SetFile(TakeBlock(fs), ino, f)
  }

  lemma AttachBacked(fs: Fs, own: map<nat, Owner>, ino: nat, f: Inode, fs': Fs, c: nat)
    requires Inv(fs, own) && !Full(fs) && ino in fs.files && InodeOk(f) && PointersKept(fs.files[ino], f) && c in own
    requires fs' == Attached(fs, ino, f) && Shaped(fs')
    ensures c < fs'.nblocks && Backed(fs', c, own[c])
  {
    FreshUnowned(fs, own);
    BackedKept(fs, fs', own, c);
  }

  lemma AttachKeeps(fs: Fs, own: map<nat, Owner>, ino: nat, f: Inode, o: Owner, b: nat, fs': Fs, own': map<nat, Owner>)
    requires Inv(fs, own) && !Full(fs) && ino in fs.files && InodeOk(f) && PointersKept(fs.files[ino], f)
    requires b == NextBlock(fs) && fs' == Attached(fs, ino, f) && own' == own[b := o]
    requires Shaped(fs') && FileOwns(fs', own', ino) && Backed(fs', b, o)
    ensures Inv(fs', own')
  {
    FreshUnowned(fs, own);
    forall k | k in fs'.files ensures FileOwns(fs', own', k) {
      if k != ino {
        OtherFile(fs, fs', own, own', b, k);
      }
    }
    forall c | c in own' ensures c < fs'.nblocks && Backed(fs', c, own'[c]) {
      if c != b {
        AttachBacked(fs, own, ino, f, fs', c);
      }
    }
    assert own'.Keys == fs'.used;
  }

  lemma AttachDirect(fs: Fs, own: map<nat, Owner>, ino: nat, i: nat)
    requires Inv(fs, own) && !Full(fs) && ino in fs.files && i < NDIRECT && fs.files[ino].direct[i] == 0
    ensures var b := NextBlock(fs); var f := fs.files[ino];
            Inv(Attached(fs, ino, f.(direct := f.direct[i := b])), own[b := Direct(ino, i)])
  {
    FreshUnowned(fs, own);
    assert FileOwns(fs, own, ino);
    SlotsKept(fs, TakeBlock(fs), own, ino);
    var b, f := NextBlock(fs), fs.files[ino];
    var f' := f.(direct := f.direct[i := b]);
    var fs' := Attached(fs, ino, f');
    assert forall j | 0 <= j < PER_INDIRECT :: SlotOf(fs', f', j) == SlotOf(TakeBlock(fs), f, j);
    AttachKeeps(fs, own, ino, f', Direct(ino, i), b, fs', own[b := Direct(ino, i)]);
  }

  lemma AttachIndirect(fs: Fs, own: map<nat, Owner>, ino: nat)
    requires Inv(fs, own) && !Full(fs) && ino in fs.files && fs.files[ino].indirect == 0
    ensures var b := NextBlock(fs); var f := fs.files[ino];
            Inv(Attached(fs, ino, f.(indirect := b)), own[b := Indirect(ino)])
  {
    FreshUnowned(fs, own);
    assert FileOwns(fs, own, ino);
    var b, f := NextBlock(fs), fs.files[ino];
    var f' := f.(indirect := b);
    var fs' := Attached(fs, ino, f');
    forall j | 0 <= j < PER_INDIRECT ensures SlotOf(fs', f', j) == 0 {
      ZeroWords(fs'.disk[b], j);
    }
    AttachKeeps(fs, own, ino, f', Indirect(ino), b, fs', own[b := Indirect(ino)]);
  }

  /** Entry j of the indirect block of file ino is set to the fresh block. */
  function SlotAttached(fs: Fs, ino: nat, j: nat): Fs
    requires Shaped(fs) && !Full(fs) && ino in fs.files && j < PER_INDIRECT && fs.files[ino].indirect < fs.nblocks
  {
    var id := fs.files[ino].indirect;
    WriteBlock(TakeBlock(fs), id, SetWord(fs.disk[id], j, NextBlock(fs)))
  }

  /** Writing the indirect block of a file leaves the other blocks in use alone. */
  predicate DiskKeptBut(fs: Fs, fs': Fs, own: map<nat, Owner>, id: nat)
  {
    |fs'.disk| == |fs.disk| && forall b | b in own && b < |fs.disk| && b != id :: fs'.disk[b] == fs.disk[b]
  }

  lemma SlotsKeptBut(fs: Fs, fs': Fs, own: map<nat, Owner>, id: nat, k: nat)
    requires Inv(fs, own) && k in fs.files && DiskKeptBut(fs, fs', own, id) && fs.files[k].indirect != id
    ensures forall j | 0 <= j < PER_INDIRECT :: SlotOf(fs', fs.files[k], j) == SlotOf(fs, fs.files[k], j)
  {
    assert FileOwns(fs, own, k);
  }

  lemma IndirectUnshared(fs: Fs, own: map<nat, Owner>, ino: nat, k: nat)
    requires Inv(fs, own) && ino in fs.files && k in fs.files && ino != k && fs.files[ino].indirect != 0
    ensures fs.files[k].indirect != fs.files[ino].indirect
  {
    assert FileOwns(fs, own, ino);
    assert FileOwns(fs, own, k);
  }

  lemma SlotWords(fs: Fs, own: map<nat, Owner>, ino: nat, j: nat, k: nat)
    requires Inv(fs, own) && !Full(fs) && ino in fs.files && j < PER_INDIRECT && fs.files[ino].indirect != 0
    requires k < PER_INDIRECT
    ensures fs.files[ino].indirect < fs.nblocks
    ensures var fs' := SlotAttached(fs, ino, j);
            SlotOf(fs', fs.files[ino], k) == if k == j then NextBlock(fs) else SlotOf(fs, fs.files[ino], k)
  {
    assert FileOwns(fs, own, ino);
    WordAfterSet(fs.disk[fs.files[ino].indirect], j, NextBlock(fs), k);
  }

  lemma AttachSlotFiles(fs: Fs, own: map<nat, Owner>, ino: nat, j: nat, k: nat)
    requires Inv(fs, own) && !Full(fs) && ino in fs.files && j < PER_INDIRECT && k in fs.files
    requires fs.files[ino].indirect != 0 && SlotOf(fs, fs.files[ino], j) == 0
    ensures fs.files[ino].indirect < fs.nblocks
    ensures FileOwns(SlotAttached(fs, ino, j), own[NextBlock(fs) := Slot(ino, j)], k)
  {
    FreshUnowned(fs, own);
    assert FileOwns(fs, own, ino);
    assert FileOwns(fs, own, k);
    var id, b := fs.files[ino].indirect, NextBlock(fs);
    var fs', own' := SlotAttached(fs, ino, j), own[b := Slot(ino, j)];
    if k == ino {
      forall m | 0 <= m < PER_INDIRECT && SlotOf(fs', fs.files[ino], m) != 0
        ensures Owned(own', SlotOf(fs', fs.files[ino], m), Slot(ino, m))
      {
        SlotWords(fs, own, ino, j, m);
      }
    } else {
      IndirectUnshared(fs, own, ino, k);
      SlotsKeptBut(fs, fs', own, id, k);
    }
  }

  lemma AttachSlotBacked(fs: Fs, own: map<nat, Owner>, ino: nat, j: nat, c: nat)
    requires Inv(fs, own) && !Full(fs) && ino in fs.files && j < PER_INDIRECT && c in own
    requires fs.files[ino].indirect != 0 && SlotOf(fs, fs.files[ino], j) == 0
    ensures fs.files[ino].indirect < fs.nblocks
    ensures Backed(SlotAttached(fs, ino, j), c, own[c])
  {
    FreshUnowned(fs, own);
    assert FileOwns(fs, own, ino);
    assert Backed(fs, c, own[c]);
    if own[c].Slot? {
      var k := own[c].ino;
      if k == ino {
        SlotWords(fs, own, ino, j, own[c].j);
      } else {
        IndirectUnshared(fs, own, ino, k);
        SlotsKeptBut(fs, SlotAttached(fs, ino, j), own, fs.files[ino].indirect, k);
      }
    }
  }

  lemma AttachSlot(fs: Fs, own: map<nat, Owner>, ino: nat, j: nat)
    requires Inv(fs, own) && !Full(fs) && ino in fs.files && j < PER_INDIRECT
    requires fs.files[ino].indirect != 0 && SlotOf(fs, fs.files[ino], j) == 0
    ensures fs.files[ino].indirect < fs.nblocks
    ensures Inv(SlotAttached(fs, ino, j), own[NextBlock(fs) := Slot(ino, j)])
  {
    FreshUnowned(fs, own);
    assert FileOwns(fs, own, ino);
    var b := NextBlock(fs);
    var fs', own' := SlotAttached(fs, ino, j), own[b := Slot(ino, j)];
    forall k | k in fs'.files ensures FileOwns(fs', own', k) {
      AttachSlotFiles(fs, own, ino, j, k);
    }
    forall c | c in own' ensures c < fs'.nblocks && Backed(fs', c, own'[c]) {
      if c != b {
        AttachSlotBacked(fs, own, ino, j, c);
      } else {
        SlotWords(fs, own, ino, j, j);
      }
    }
  }

  // ---------------------------------------------------------------------------------------------
  // sfs_bmap

  /** At most file block fb of file ino was mapped; nothing else moved, and nothing reads differently. */
  ghost predicate MapsOnly(fs: Fs, fs': Fs, ino: nat, fb: nat)
    requires Shaped(fs) && Shaped(fs')
  {
    && SameFiles(fs, fs')
    && (forall k, gb: nat | k in fs.files && !(k == ino && gb == fb) ::
          MapOf(fs', fs'.files[k], gb) == MapOf(fs, fs.files[k], gb))
    && (forall k | k in fs.files && k != ino :: fs'.files[k] == fs.files[k])
  }

  lemma DirectMapsOnly(fs: Fs, own: map<nat, Owner>, ino: nat, i: nat)
    requires Inv(fs, own) && !Full(fs) && ino in fs.files && i < NDIRECT && fs.files[ino].direct[i] == 0
    ensures var b := NextBlock(fs); var f := fs.files[ino];
            var fs' := Attached(fs, ino, f.(direct := f.direct[i := b]));
            Shaped(fs') && MapsOnly(fs, fs', ino, i) && MapOf(fs', fs'.files[ino], i) == b
  {
    AttachDirect(fs, own, ino, i);
    FreshUnowned(fs, own);
    var b, f := NextBlock(fs), fs.files[ino];
    var fs' := Attached(fs, ino, f.(direct := f.direct[i := b]));
    SlotsKept(fs, fs', own, ino);
    forall k, gb: nat | k in fs.files
      ensures (k != ino || gb != i) ==> MapOf(fs', fs'.files[k], gb) == MapOf(fs, fs.files[k], gb)
      ensures ContentOf(fs', fs'.files[k], gb) == ContentOf(fs, fs.files[k], gb)
    {
      ContentKept(fs, fs', own, k, gb);
      if k == ino && gb != i && MapOf(fs, f, gb) != 0 {
        MappedOwner(fs, own, ino, gb);
      }
    }
  }

  /** A fresh indirect block maps nothing yet. */
  lemma IndirectMapsNothing(fs: Fs, own: map<nat, Owner>, ino: nat, fb: nat)
    requires Inv(fs, own) && !Full(fs) && ino in fs.files && fs.files[ino].indirect == 0
    ensures var fs' := Attached(fs, ino, fs.files[ino].(indirect := NextBlock(fs)));
            Shaped(fs') && MapsOnly(fs, fs', ino, fb) && MapOf(fs', fs'.files[ino], fb) == MapOf(fs, fs.files[ino], fb)
  {
    AttachIndirect(fs, own, ino);
    FreshUnowned(fs, own);
    var b, f := NextBlock(fs), fs.files[ino];
    var fs' := Attached(fs, ino, f.(indirect := b));
    forall j: nat | j < PER_INDIRECT ensures SlotOf(fs', fs'.files[ino], j) == 0 {
      ZeroWords(fs'.disk[b], j);
    }
    forall k, gb: nat | k in fs.files
      ensures MapOf(fs', fs'.files[k], gb) == MapOf(fs, fs.files[k], gb)
      ensures ContentOf(fs', fs'.files[k], gb) == ContentOf(fs, fs.files[k], gb)
    {
      ContentKept(fs, fs', own, k, gb);
    }
  }

  lemma SlotMaps(fs: Fs, own: map<nat, Owner>, ino: nat, j: nat, k: nat, gb: nat)
    requires Inv(fs, own) && !Full(fs) && ino in fs.files && j < PER_INDIRECT && k in fs.files
    requires fs.files[ino].indirect != 0 && SlotOf(fs, fs.files[ino], j) == 0
    ensures fs.files[ino].indirect < fs.nblocks
    ensures var fs' := SlotAttached(fs, ino, j);
            && MapOf(fs', fs.files[k], gb)
                 == (if k == ino && gb == NDIRECT + j then NextBlock(fs) else MapOf(fs, fs.files[k], gb))
            && ContentOf(fs', fs.files[k], gb) == ContentOf(fs, fs.files[k], gb)
  {
    FreshUnowned(fs, own);
    assert FileOwns(fs, own, ino);
    var fs' := SlotAttached(fs, ino, j);
    if k != ino {
      IndirectUnshared(fs, own, ino, k);
      SlotsKeptBut(fs, fs', own, fs.files[ino].indirect, k);
    } else if NDIRECT <= gb < MAX_BLOCKS {
      SlotWords(fs, own, ino, j, gb - NDIRECT);
    }
    if MapOf(fs, fs.files[k], gb) != 0 {
      MappedOwner(fs, own, k, gb);
    }
  }

  lemma SlotMapsOnly(fs: Fs, own: map<nat, Owner>, ino: nat, j: nat)
    requires Inv(fs, own) && !Full(fs) && ino in fs.files && j < PER_INDIRECT
    requires fs.files[ino].indirect != 0 && SlotOf(fs, fs.files[ino], j) == 0
    ensures fs.files[ino].indirect < fs.nblocks
    ensures var fs' := SlotAttached(fs, ino, j);
            && Shaped(fs') && MapsOnly(fs, fs', ino, NDIRECT + j)
            && MapOf(fs', fs'.files[ino], NDIRECT + j) == NextBlock(fs)
  {
    AttachSlot(fs, own, ino, j);
    var fs' := SlotAttached(fs, ino, j);
    forall k, gb: nat | k in fs.files
      ensures MapOf(fs', fs'.files[k], gb)
              == (if k == ino && gb == NDIRECT + j then NextBlock(fs) else MapOf(fs, fs.files[k], gb))
      ensures ContentOf(fs', fs'.files[k], gb) == ContentOf(fs, fs.files[k], gb)
    {
      SlotMaps(fs, own, ino, j, k, gb);
    }
  }

  /** The outcome of mapping file block fb: no panic, the ownership kept and extended, and every
      file reading as before. */
  ghost predicate BmapContract(fs: Fs, own: map<nat, Owner>, ino: nat, fb: nat, alloc: bool, r: MapResult,
                               own': map<nat, Owner>)
    requires Inv(fs, own) && ino in fs.files
  {
    var was := MapOf(fs, fs.files[ino], fb);
    && !r.MapPanic? && Inv(r.fs, own') && MapsOnly(fs, r.fs, ino, fb)
    && (forall b | b in own :: b in own' && own'[b] == own[b]) && InodesKept(fs, r.fs, own)
    && (r.Mapped? ==> fb < MAX_BLOCKS && r.block == MapOf(r.fs, r.fs.files[ino], fb) && (alloc ==> r.block != 0))
    && (was != 0 || !alloc || fb >= MAX_BLOCKS ==> r.fs == fs)
    && (r.MapError? ==> if fb >= MAX_BLOCKS then r.err == EFBIG else r.err == ENOSPC && alloc && was == 0 && Full(r.fs))
    && (r.MapError? ==> MapOf(r.fs, r.fs.files[ino], fb) == was)
  }

  lemma BmapDirectKeeps(fs: Fs, own: map<nat, Owner>, ino: nat, fb: nat, alloc: bool) returns (own': map<nat, Owner>)
    requires Inv(fs, own) && ino in fs.files && fb < NDIRECT
    ensures BmapContract(fs, own, ino, fb, alloc, BmapDirect(fs, ino, fb, alloc), own')
  {
    own' := own;
    assert FileOwns(fs, own, ino);
    if fs.files[ino].direct[fb] == 0 && alloc && !Full(fs) {
      AttachDirect(fs, own, ino, fb);
      DirectMapsOnly(fs, own, ino, fb);
      FreshUnowned(fs, own);
      own' := own[NextBlock(fs) := Direct(ino, fb)];
    }
  }

  lemma BmapSlotKeeps(fs: Fs, own: map<nat, Owner>, ino: nat, j: nat, fb: nat, alloc: bool)
    returns (own': map<nat, Owner>)
    requires Inv(fs, own) && ino in fs.files && j < PER_INDIRECT && fb == NDIRECT + j && fs.files[ino].indirect != 0
    ensures BmapContract(fs, own, ino, fb, alloc, BmapSlot(fs, ino, j, alloc), own')
  {
    own' := own;
    assert FileOwns(fs, own, ino);
    if SlotOf(fs, fs.files[ino], j) == 0 && alloc && !Full(fs) {
      AttachSlot(fs, own, ino, j);
      SlotMapsOnly(fs, own, ino, j);
      FreshUnowned(fs, own);
      own' := own[NextBlock(fs) := Slot(ino, j)];
    }
  }

  /** A step that maps nothing, before a step that maps the block. */
  lemma ContractChain(fs: Fs, own: map<nat, Owner>, fs1: Fs, own1: map<nat, Owner>, ino: nat, fb: nat, r: MapResult,
                      own': map<nat, Owner>)
    requires Inv(fs, own) && Inv(fs1, own1) && ino in fs.files && ino in fs1.files && MapsOnly(fs, fs1, ino, fb)
    requires MapOf(fs1, fs1.files[ino], fb) == MapOf(fs, fs.files[ino], fb) == 0 && fb < MAX_BLOCKS
    requires (forall b | b in own :: b in own1 && own1[b] == own[b]) && InodesKept(fs, fs1, own)
    requires BmapContract(fs1, own1, ino, fb, true, r, own')
    ensures BmapContract(fs, own, ino, fb, true, r, own')
  {
  }

  lemma NewIndirect(fs: Fs, own: map<nat, Owner>, ino: nat, fb: nat) returns (fs1: Fs, own1: map<nat, Owner>)
    requires Inv(fs, own) && ino in fs.files && fs.files[ino].indirect == 0 && !Full(fs)
    ensures fs1 == Attached(fs, ino, fs.files[ino].(indirect := NextBlock(fs)))
    ensures Inv(fs1, own1) && MapsOnly(fs, fs1, ino, fb) && forall b | b in own :: b in own1 && own1[b] == own[b]
    ensures InodesKept(fs, fs1, own)
    ensures ino in fs1.files && fs1.files[ino].indirect != 0
    ensures MapOf(fs1, fs1.files[ino], fb) == MapOf(fs, fs.files[ino], fb)
  {
    AttachIndirect(fs, own, ino);
    IndirectMapsNothing(fs, own, ino, fb);
    FreshUnowned(fs, own);
    var b := NextBlock(fs);
    fs1 := Attached(fs, ino, fs.files[ino].(indirect := b));
    own1 := own[b := Indirect(ino)];
  }

  lemma BmapNewIndirect(fs: Fs, own: map<nat, Owner>, ino: nat, j: nat, fb: nat) returns (own': map<nat, Owner>)
    requires Inv(fs, own) && ino in fs.files && j < PER_INDIRECT && fb == NDIRECT + j
    requires fs.files[ino].indirect == 0 && !Full(fs)
    ensures BmapContract(fs, own, ino, fb, true, BmapIndirect(fs, ino, j, true), own')
  {
    var fs1, own1 := NewIndirect(fs, own, ino, fb);
    own' := BmapSlotKeeps(fs1, own1, ino, j, fb, true);
    var r := BmapSlot(fs1, ino, j, true);
    ContractChain(fs, own, fs1, own1, ino, fb, r, own');
    assert BmapIndirect(fs, ino, j, true) == r;
  }

  lemma BmapIndirectKeeps(fs: Fs, own: map<nat, Owner>, ino: nat, j: nat, fb: nat, alloc: bool)
    returns (own': map<nat, Owner>)
    requires Inv(fs, own) && ino in fs.files && j < PER_INDIRECT && fb == NDIRECT + j
    ensures BmapContract(fs, own, ino, fb, alloc, BmapIndirect(fs, ino, j, alloc), own')
  {
    own' := own;
    if fs.files[ino].indirect != 0 {
      own' := BmapSlotKeeps(fs, own, ino, j, fb, alloc);
    } else if alloc && !Full(fs) {
      own' := BmapNewIndirect(fs, own, ino, j, fb);
    }
  }

  /** sfs_bmap, for every file, block number and request. */
  lemma BmapKeeps(fs: Fs, own: map<nat, Owner>, ino: nat, fb: nat, alloc: bool) returns (own': map<nat, Owner>)
    requires Inv(fs, own) && ino in fs.files
    ensures BmapContract(fs, own, ino, fb, alloc, Bmap(fs, ino, fb, alloc), own')
  {
    if fb < NDIRECT {
      own' := BmapDirectKeeps(fs, own, ino, fb, alloc);
    } else if fb < MAX_BLOCKS {
      own' := BmapIndirectKeeps(fs, own, ino, SlotIndex(fb), fb, alloc);
    } else {
      own' := own;
    }
  }

  // ---------------------------------------------------------------------------------------------
  // Writing a data block

  /** A data block is no inode, no indirect block, and belongs to one block of one file. */
  lemma DataBlockAlone(fs: Fs, own: map<nat, Owner>, ino: nat, fb: nat, k: nat, gb: nat)
    requires Inv(fs, own) && ino in fs.files && k in fs.files && MapOf(fs, fs.files[ino], fb) != 0
    ensures fs.files[k].indirect != MapOf(fs, fs.files[ino], fb)
    ensures k != ino || gb != fb ==> MapOf(fs, fs.files[k], gb) != MapOf(fs, fs.files[ino], fb)
  {
    MappedOwner(fs, own, ino, fb);
    assert FileOwns(fs, own, k);
    if MapOf(fs, fs.files[k], gb) != 0 {
      MappedOwner(fs, own, k, gb);
    }
  }

  lemma WriteMaps(fs: Fs, own: map<nat, Owner>, ino: nat, fb: nat, data: Block, k: nat, gb: nat)
    requires Inv(fs, own) && ino in fs.files && k in fs.files && MapOf(fs, fs.files[ino], fb) != 0
    ensures MapOf(fs, fs.files[ino], fb) < fs.nblocks
    ensures var fs' := WriteBlock(fs, MapOf(fs, fs.files[ino], fb), data);
            && MapOf(fs', fs.files[k], gb) == MapOf(fs, fs.files[k], gb)
            && ContentOf(fs', fs.files[k], gb) == if k == ino && gb == fb then data else ContentOf(fs, fs.files[k], gb)
  {
    MappedOwner(fs, own, ino, fb);
    DataBlockAlone(fs, own, ino, fb, k, gb);
  }

  /** Writing a mapped block changes that block of that file and nothing else. */
  lemma WriteKeeps(fs: Fs, own: map<nat, Owner>, ino: nat, fb: nat, data: Block)
    requires Inv(fs, own) && ino in fs.files && MapOf(fs, fs.files[ino], fb) != 0
    ensures MapOf(fs, fs.files[ino], fb) < fs.nblocks
    ensures var fs' := WriteBlock(fs, MapOf(fs, fs.files[ino], fb), data);
            && Inv(fs', own)
            && (forall k, gb: nat | k in fs.files ::
                  ContentOf(fs', fs.files[k], gb)
                      == if k == ino && gb == fb then data else ContentOf(fs, fs.files[k], gb))
  {
    MappedOwner(fs, own, ino, fb);
    var b := MapOf(fs, fs.files[ino], fb);
    var fs' := WriteBlock(fs, b, data);
    forall k, gb: nat | k in fs.files
      ensures ContentOf(fs', fs.files[k], gb) == if k == ino && gb == fb then data else ContentOf(fs, fs.files[k], gb)
    {
      WriteMaps(fs, own, ino, fb, data, k, gb);
    }
    WriteOwns(fs, own, ino, fb, data);
  }

  lemma WriteOwns(fs: Fs, own: map<nat, Owner>, ino: nat, fb: nat, data: Block)
    requires Inv(fs, own) && ino in fs.files && MapOf(fs, fs.files[ino], fb) != 0
    ensures MapOf(fs, fs.files[ino], fb) < fs.nblocks
    ensures Inv(WriteBlock(fs, MapOf(fs, fs.files[ino], fb), data), own)
  {
    MappedOwner(fs, own, ino, fb);
    var fs' := WriteBlock(fs, MapOf(fs, fs.files[ino], fb), data);
    forall k | k in fs.files
      ensures forall j | 0 <= j < PER_INDIRECT :: SlotOf(fs', fs.files[k], j) == SlotOf(fs, fs.files[k], j)
    {
      DataBlockAlone(fs, own, ino, fb, k, 0);
    }
    forall k | k in fs'.files ensures FileOwns(fs', own, k) {
      assert FileOwns(fs, own, k);
    }
    forall c | c in own ensures Backed(fs', c, own[c]) {
      assert Backed(fs, c, own[c]);
    }
  }

  /** Size, type and link count are no business of the block map. */
  lemma InodeFieldsKeep(fs: Fs, own: map<nat, Owner>, ino: nat, f: Inode)
    requires Inv(fs, own) && ino in fs.files && InodeOk(f)
    requires f.direct == fs.files[ino].direct && f.indirect == fs.files[ino].indirect
    ensures Inv(SetFile(fs, ino, f), own)
    ensures forall k, gb: nat | k in fs.files ::
              && MapOf(SetFile(fs, ino, f), SetFile(fs, ino, f).files[k], gb) == MapOf(fs, fs.files[k], gb)
              && ContentOf(SetFile(fs, ino, f), SetFile(fs, ino, f).files[k], gb) == ContentOf(fs, fs.files[k], gb)
  {
    var fs' := SetFile(fs, ino, f);
    forall k | k in fs'.files ensures FileOwns(fs', own, k) {
      assert FileOwns(fs, own, k);
      assert forall j | 0 <= j < PER_INDIRECT :: SlotOf(fs', fs'.files[k], j) == SlotOf(fs, fs.files[k], j);
    }
    forall c | c in own ensures Backed(fs', c, own[c]) {
      assert Backed(fs, c, own[c]);
    }
  }
}
