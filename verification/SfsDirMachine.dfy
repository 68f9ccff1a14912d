/** The directory code and the operations on names in place. */
module SfsDirMachine {
  import opened Common
  import opened SfsDisk
  import opened SfsState
  import opened SfsOwnership
  import opened SfsIo
  import opened SfsDir
  import opened SfsTruncate
  import opened SfsCache
  import opened SfsNames
  import opened SfsOps
  import opened SfsMachine
  import SfsReadMachine

  // ---------------------------------------------------------------------------------------------
  // sfs_metaio

  method ReadMeta(vol: Volume, ino: nat, off: nat, n: nat, ghost own: map<nat, Owner>)
    returns (err: Option<Errno>, data: seq<Byte>)
    requires vol.Valid() && Inv(vol.State(), own) && ino in vol.inodes && BlockOffset(off) + n <= BLOCK
    modifies vol`inodes, vol.freemap.v, vol.disk
    ensures vol.Valid() && vol.State() == old(vol.State()) && MetaRead(vol.State(), ino, off, n) == Read(data, err)
  {
    var block;
    data := [];
    err, block := SfsReadMachine.Look(vol, ino, FileBlock(off), own);
    if err == None {
      var skip := off % BLOCK;
      var buf := SfsReadMachine.Fetch(vol, block);
      data := buf[skip..skip + n];
      assert data == buf[..][skip..skip + n];
    }
  }

  method WriteMeta(vol: Volume, ino: nat, off: nat, data: seq<Byte>) returns (err: Option<Errno>)
    requires vol.Valid() && Shaped(vol.State()) && ino in vol.inodes && BlockOffset(off) + |data| <= BLOCK
    requires !MetaWrite(vol.State(), ino, off, data).WritePanic?
    modifies vol`inodes, vol.freemap.v, vol.disk
    ensures vol.Valid()
    ensures MetaWrite(old(vol.State()), ino, off, data) == Wrote(vol.State(), if err == None then |data| else 0, err)
  {
    var block;
    err, block := vol.Bmap(ino, FileBlock(off), true);
    if err == None {
      ghost var fs1 := vol.State();
      vol.disk[block] := Splice(vol.disk[block], off % BLOCK, data);
      assert vol.disk[..] == fs1.disk[block := vol.disk[block]];
      var end := off + |data|;
      if |data| > 0 && end > vol.inodes[ino].size {
        vol.inodes := vol.inodes[ino := vol.inodes[ino].(size := Word32(end))];
      }
    }
  }

  // ---------------------------------------------------------------------------------------------
  // Slots

  /** sfs_readdir. */
  method ReadDir(vol: Volume, dir: nat, slot: nat, ghost own: map<nat, Owner>) returns (err: Option<Errno>, e: Entry)
    requires vol.Valid() && Inv(vol.State(), own) && dir in vol.inodes
    modifies vol`inodes, vol.freemap.v, vol.disk
    ensures vol.Valid() && vol.State() == old(vol.State())
    ensures ReadSlot(vol.State(), dir, slot) == if err == None then Got(e) else SlotError(err.value)
  {
    SlotFits(slot);
    var bytes;
    e := Free;
    err, bytes := ReadMeta(vol, dir, slot * ENTRY, ENTRY, own);
    ReadSlotFrom(vol.State(), dir, slot, bytes, err);
    if err == None {
      e := EntryOf(bytes);
    }
  }

  lemma ReadSlotFrom(fs: Fs, dir: nat, slot: nat, bytes: seq<Byte>, err: Option<Errno>)
    requires Shaped(fs) && dir in fs.files && BlockOffset(slot * ENTRY) + ENTRY <= BLOCK
    requires MetaRead(fs, dir, slot * ENTRY, ENTRY) == Read(bytes, err)
    ensures err == None ==> |bytes| == ENTRY
    ensures ReadSlot(fs, dir, slot) == if err == None then Got(EntryOf(bytes)) else SlotError(err.value)
  {
    assert SlotOffset(slot) == slot * ENTRY;
  }

  /** sfs_writedir. */
  method WriteDir(vol: Volume, dir: nat, slot: nat, ino: nat, name: seq<Byte>) returns (err: Option<Errno>)
    requires vol.Valid() && Shaped(vol.State()) && dir in vol.inodes && ino < WORD_LIMIT && |name| < NAME_LEN
    requires !WriteSlot(vol.State(), dir, slot, ino, name).WritePanic?
    modifies vol`inodes, vol.freemap.v, vol.disk
    ensures vol.Valid()
    ensures WriteSlot(old(vol.State()), dir, slot, ino, name)
            == Wrote(vol.State(), if err == None then ENTRY else 0, err)
  {
    SlotFits(slot);
    err := WriteMeta(vol, dir, slot * ENTRY, EncodeEntry(ino, name));
  }

  /** sfs_dir_findname: the loop over the slots. */
  method FindNameIn(vol: Volume, dir: nat, name: seq<Byte>, ghost own: map<nat, Owner>, ghost es: seq<Entry>)
    returns (err: Option<Errno>, slot: Option<nat>, ino: nat, empty: Option<nat>)
    requires vol.Valid() && Inv(vol.State(), own) && DirIs(vol.State(), dir, es) && Unique(es)
    modifies vol`inodes, vol.freemap.v, vol.disk
    ensures vol.Valid() && vol.State() == old(vol.State())
    ensures FindName(vol.State(), dir, name) == Searched(slot, ino, empty)
    ensures err == if slot.Some? then None else Some(ENOENT)
  {
    ghost var fs := vol.State();
    var n := vol.inodes[dir].size / ENTRY;
    slot, ino, empty := None, 0, None;
    assert n == |es|;
    for i := 0 to n
      invariant vol.Valid() && vol.State() == fs && Answers(es, i, name, Searched(slot, ino, empty))
      invariant FindName(fs, dir, name) == ScanFrom(fs, dir, name, i, n, Searched(slot, ino, empty))
    {
      ReadSlotIs(fs, own, dir, es, i);
      VisitAnswers(es, name, i, Searched(slot, ino, empty));
      var failed, e := ReadDir(vol, dir, i, own);
      ScanStep(fs, dir, name, i, i + 1, n, Searched(slot, ino, empty), es[i],
          Visit(Searched(slot, ino, empty), i, es[i], name));
      match e {
        case Free =>
          empty := Some(i);
        case Used(k, entry) =>
          if entry == name {
            assert slot == None;
            slot, ino := Some(i), k;
          }
      }
    }
    err := if slot.Some? then None else Some(ENOENT);
  }

  lemma LinkDefined(fs: Fs, own: map<nat, Owner>, dir: nat, es: seq<Entry>, name: seq<Byte>, ino: nat)
    requires Inv(fs, own) && DirIs(fs, dir, es) && Unique(es) && IsString(name) && 0 < ino < WORD_LIMIT
    ensures var l := DirLink(fs, dir, name, ino); !l.LinkPanic? && dir in l.fs.files
  {
    var l, own' := DirLinkKeeps(fs, own, dir, es, name, ino);
  }

  /** sfs_dir_link. */
  method LinkIn(vol: Volume, dir: nat, name: seq<Byte>, ino: nat, ghost own: map<nat, Owner>, ghost es: seq<Entry>)
    returns (err: Option<Errno>, slot: nat)
    requires vol.Valid() && Inv(vol.State(), own) && DirIs(vol.State(), dir, es) && Unique(es) && IsString(name)
    requires 0 < ino < WORD_LIMIT
    modifies vol`inodes, vol.freemap.v, vol.disk
    ensures vol.Valid() && dir in vol.inodes
    ensures DirLink(old(vol.State()), dir, name, ino)
            == if err == None then Linked(vol.State(), slot) else NotLinked(vol.State(), err.value)
  {
    LinkDefined(vol.State(), own, dir, es, name, ino);
    var at, k, empty;
    slot := 0;
    err, at, k, empty := FindNameIn(vol, dir, name, own, es);
    if at.Some? {
      err := Some(EEXIST);
      return;
    }
    if |name| + 1 > NAME_LEN {
      err := Some(ENAMETOOLONG);
      return;
    }
    slot := if empty.Some? then empty.value else vol.inodes[dir].size / ENTRY;
    err := WriteDir(vol, dir, slot, ino, name);
  }

  // ---------------------------------------------------------------------------------------------
  // Operations on names

  class Mounted {
    const vol: Volume
    var refs: map<nat, nat>
    var dirty: set<nat>

    ghost predicate Valid()
      reads this, vol, vol.freemap, vol.freemap.v, vol.disk
    {
      vol.Valid()
    }

    ghost function Now(): Vol
      reads this, vol, vol.freemap, vol.freemap.v, vol.disk
    {
      Vol(vol.State(), refs, dirty)
    }

    constructor (vol: Volume)
      requires vol.Valid()
      ensures Valid() && this.vol == vol && refs == map[] && dirty == {}
    {
      this.vol, refs, dirty := vol, map[], {};
    }

    /** An operation on a loaded file marks its inode if it has changed it. */
    method Note(ino: nat, was: Inode)
      requires ino in vol.inodes
      modifies this`dirty
      ensures dirty == if vol.inodes[ino] == was then old(dirty) else old(dirty) + {ino}
    {
      if vol.inodes[ino] != was {
        dirty := dirty + {ino};
      }
    }

    /** One reference more to the vnode of an inode. */
    method Incref(ino: nat)
      requires Valid()
      modifies this`refs
      ensures Valid() && Now() == Hold(old(Now()), ino)
    {
      refs := refs[ino := (if ino in refs then refs[ino] else 0) + 1];
    }

    method Relink(ino: nat, d: int)
      requires Valid() && ino in vol.inodes
      modifies vol`inodes, this`dirty
      ensures Valid() && Now() == Recount(old(Now()), ino, d)
    {
      var f := vol.inodes[ino];
      vol.inodes := vol.inodes[ino := f.(links := Half(f.links + d))];
      dirty := dirty + {ino};
    }

    /** sfs_sync_inode. */
    method SyncInode(ino: nat)
      requires Valid() && ino in vol.inodes && ino < vol.nblocks && InodeOk(vol.inodes[ino])
      modifies this`dirty, vol.disk
      ensures Valid() && Now() == SyncVnode(old(Now()), ino)
    {
      if ino in dirty {
        ghost var fs := vol.State();
        vol.disk[ino] := EncodeInode(vol.inodes[ino]);
        assert vol.disk[..] == fs.disk[ino := vol.disk[ino]];
        dirty := dirty - {ino};
      }
    }

    /** sfs_dir_link in the root directory. */
    method EnterRoot(name: seq<Byte>, ino: nat, ghost own: map<nat, Owner>, ghost es: seq<Entry>)
      returns (err: Option<Errno>, slot: nat)
      requires Valid() && Inv(vol.State(), own) && DirIs(vol.State(), ROOT_INO, es) && Unique(es) && IsString(name)
      requires 0 < ino < WORD_LIMIT
      modifies this`dirty, vol`inodes, vol.freemap.v, vol.disk
      ensures Valid() && ROOT_INO in vol.inodes && Now() == Touch(old(Now()), ROOT_INO, vol.State())
      ensures DirLink(old(vol.State()), ROOT_INO, name, ino)
              == if err == None then Linked(vol.State(), slot) else NotLinked(vol.State(), err.value)
    {
      var was := vol.inodes[ROOT_INO];
      err, slot := LinkIn(vol, ROOT_INO, name, ino, own, es);
      Note(ROOT_INO, was);
    }

    /** sfs_dir_unlink in the root directory. */
    method ClearSlot(slot: nat) returns (err: Option<Errno>)
      requires Valid() && Fit(vol.State())
      requires var w := DirUnlink(vol.State(), ROOT_INO, slot); w.Wrote? && ROOT_INO in w.fs.files
      modifies this`dirty, vol`inodes, vol.freemap.v, vol.disk
      ensures Valid() && ROOT_INO in vol.inodes && Now() == Touch(old(Now()), ROOT_INO, vol.State())
      ensures DirUnlink(old(vol.State()), ROOT_INO, slot) == Wrote(vol.State(), if err == None then ENTRY else 0, err)
    {
      var was := vol.inodes[ROOT_INO];
      err := WriteDir(vol, ROOT_INO, slot, 0, []);
      Note(ROOT_INO, was);
    }

    /** The end of sfs_reclaim for a file without links: its blocks go, its inode is written, and the
        block of that goes too. */
    method EraseSteps(ino: nat, ghost fs1: Fs)
      requires Valid() && Shaped(vol.State()) && ino in vol.inodes && Itrunc(vol.State(), ino, 0) == Some(fs1)
      requires ino in fs1.files && InodeOk(fs1.files[ino]) && |fs1.disk| == |vol.State().disk| && ino in fs1.used
      modifies this`refs, this`dirty, vol`inodes, vol.freemap.v, vol.disk
      ensures Valid() && ino < |fs1.disk| && refs == old(refs) - {ino} && dirty == old(dirty) - {ino}
      ensures vol.State() == WithoutFile(WriteBlock(fs1, ino, EncodeInode(fs1.files[ino])), ino)
    {
      vol.Itrunc(ino, 0);
      dirty := dirty + {ino};
      SyncInode(ino);
      vol.Bfree(ino);
      vol.inodes := vol.inodes - {ino};
      refs, dirty := refs - {ino}, dirty - {ino};
    }

    method Erase(ino: nat, ghost own: map<nat, Owner>, ghost es: seq<Entry>)
      requires Valid() && VolInv(Now(), own, es) && ino in refs && vol.inodes[ino].links == 0
      modifies this`refs, this`dirty, vol`inodes, vol.freemap.v, vol.disk
      ensures Valid() && ino < |old(vol.State()).disk| && EraseVnode(old(Now()), ino) == Some(Now())
    {
      ghost var v := Now();
      EraseLinks(v.fs.files, es, ino, v.fs.files - {ino});
      ghost var fs1, fs' := EraseFile(v.fs, own, ino);
      EraseSteps(ino, fs1);
      ErasedVol(v, ino, fs1);
    }

    /** vnode_decref, with sfs_reclaim for the last reference. */
    method Decref(ino: nat, ghost own: map<nat, Owner>, ghost es: seq<Entry>)
      requires Valid() && VolInv(Now(), own, es) && ino in refs
      modifies this`refs, this`dirty, vol`inodes, vol.freemap.v, vol.disk
      ensures Valid() && Release(old(Now()), ino) == Some(Now())
    {
      FileNumber(vol.State(), own, ino);
      if refs[ino] == 1 && vol.inodes[ino].links == 0 {
        Erase(ino, own, es);
      } else {
        Drop(ino);
      }
    }

    /** One reference less; the last one of a file with links writes the inode. */
    method Drop(ino: nat)
      requires Valid() && Shaped(vol.State()) && ino in refs && refs[ino] > 0 && ino in vol.inodes && ino < vol.nblocks
      requires InodeOk(vol.inodes[ino]) && (refs[ino] == 1 ==> vol.inodes[ino].links > 0)
      modifies this`refs, this`dirty, vol.disk
      ensures Valid() && Release(old(Now()), ino) == Some(Now())
    {
      if refs[ino] > 1 {
        refs := refs[ino := refs[ino] - 1];
      } else {
        SyncInode(ino);
        refs := refs - {ino};
      }
    }

    /** sfs_makeobj. */
    method MakeObject() returns (ok: bool, ino: nat)
      requires Valid() && Shaped(vol.State())
      modifies this`refs, this`dirty, vol`inodes, vol.freemap.v, vol.disk
      ensures Valid() && (ok <==> !Full(old(vol.State())))
      ensures ok ==> ino == NextBlock(old(vol.State())) && Now() == MakeFile(old(Now()))
      ensures !ok ==> Now() == old(Now())
    {
      ok, ino := vol.Balloc();
      if ok {
        vol.inodes := vol.inodes[ino := BLANK_FILE];
        refs, dirty := refs[ino := 1], dirty + {ino};
      }
    }

    /** The outcome that an operation has left. */
    ghost predicate Ends(o: Outcome, err: Option<Errno>, ino: nat)
      reads this, vol, vol.freemap, vol.freemap.v, vol.disk
    {
      match o
      case Done(v, k) => Now() == v && err == None && ino == k
      case Failed(v, e) => Now() == v && err == Some(e)
      case Panicked => false
    }

    /** The name is entered and counted. */
    method LinkSteps(name: seq<Byte>, ino: nat, ghost own: map<nat, Owner>, ghost es: seq<Entry>)
      returns (err: Option<Errno>, slot: nat)
      requires Valid() && Inv(vol.State(), own) && DirIs(vol.State(), ROOT_INO, es) && Unique(es) && IsString(name)
      requires ino in vol.inodes && 0 < ino < WORD_LIMIT
      modifies this`dirty, vol`inodes, vol.freemap.v, vol.disk
      ensures Valid() && var l := DirLink(old(vol.State()), ROOT_INO, name, ino);
              && !l.LinkPanic? && Fit(l.fs) && ino in l.fs.files && Fit(old(vol.State()))
              && Now() == Counted(old(Now()), ino, l)
              && (if l.Linked? then err == None && slot == l.slot else err == Some(l.err))
    {
      ghost var l, own' := DirLinkKeeps(vol.State(), own, ROOT_INO, es, name, ino);
      err, slot := EnterRoot(name, ino, own, es);
      if err == None {
        Relink(ino, 1);
      }
    }

    /** sfs_link. */
    method LinkName(name: seq<Byte>, ino: nat, ghost own: map<nat, Owner>, ghost es: seq<Entry>)
      returns (err: Option<Errno>)
      requires Valid() && VolInv(Now(), own, es) && ROOT_INO in refs && ino in refs && IsString(name)
      modifies this`dirty, vol`inodes, vol.freemap.v, vol.disk
      ensures Valid() && ino < WORD_LIMIT && Ends(Link(old(Now()), name, ino), err, ino)
    {
      ghost var v := Now();
      FileNumber(vol.State(), own, ino);
      if vol.inodes[ino].kind == TYPE_DIR {
        return Some(EINVAL);
      }
      var slot;
      err, slot := LinkSteps(name, ino, own, es);
      ghost var l := DirLink(v.fs, ROOT_INO, name, ino);
      LinkIs(v, name, ino, l, if l.NotLinked? then Failed(Now(), l.err) else Done(Now(), ino));
    }

    /** sfs_lookonce. */
    method LookUp(name: seq<Byte>, ghost own: map<nat, Owner>, ghost es: seq<Entry>)
      returns (err: Option<Errno>, ino: nat, slot: nat)
      requires Valid() && VolInv(Now(), own, es)
      modifies this`refs, vol`inodes, vol.freemap.v, vol.disk
      ensures Valid() && Fit(old(vol.State())) && (err == None || Now() == old(Now()))
      ensures LookOnce(old(Now()), name) == if err == None then Look(Now(), ino, slot) else NoLook(err.value)
    {
      ghost var r := LookKeeps(Now(), own, es, name);
      var at, empty;
      slot := 0;
      err, at, ino, empty := FindNameIn(vol, ROOT_INO, name, own, es);
      if err == None {
        slot := at.value;
        Incref(ino);
      }
    }

    /** The new file of sfs_creat is entered, or goes again. */
    method Enter(name: seq<Byte>, ino: nat, ghost own: map<nat, Owner>, ghost es: seq<Entry>)
      returns (err: Option<Errno>)
      requires Valid() && VolInv(Now(), own, es) && ROOT_INO in refs && ino in refs && IsString(name)
      modifies this`refs, this`dirty, vol`inodes, vol.freemap.v, vol.disk
      ensures Valid() && ino < WORD_LIMIT
      ensures var r := Link(old(Now()), name, ino);
              !r.Panicked? && Shaped(r.v.fs) && Ends(if r.Failed? then GiveUp(r.v, ino, r.err) else r, err, ino)
    {
      ghost var r, own2, es2 := LinkSound(Now(), own, es, name, ino);
      err := LinkName(name, ino, own, es);
      if err != None {
        assert r == Failed(Now(), err.value);
        Decref(ino, own2, es2);
        assert GiveUp(r.v, ino, r.err) == Failed(Now(), r.err);
      }
    }

    /** The rest of sfs_creat for a name that is not there. */
    method CreatNew(name: seq<Byte>, excl: bool, ghost own: map<nat, Owner>, ghost es: seq<Entry>)
      returns (err: Option<Errno>, ino: nat)
      requires Valid() && VolInv(Now(), own, es) && ROOT_INO in refs && IsString(name)
      requires var s := FindName(vol.State(), ROOT_INO, name); s.Searched? && s.slot.None?
      modifies this`refs, this`dirty, vol`inodes, vol.freemap.v, vol.disk
      ensures Valid() && Fit(old(vol.State())) && Ends(Create(old(Now()), name, excl), err, ino)
    {
      ghost var v, own1 := Now(), own;
      ghost var s := FindName(v.fs, ROOT_INO, name);
      var ok;
      if !Full(v.fs) {
        ghost var v1, b;
        v1, own1, b := SfsOps.MakeKeeps(v, own, es);
      }
      ok, ino := MakeObject();
      if !ok {
        err := Some(ENOSPC);
        return;
      }
      err := Enter(name, ino, own1, es);
      ghost var r := Link(MakeFile(v), name, ino);
      CreateMade(v, name, excl, s, MakeFile(v), ino, r, if r.Failed? then GiveUp(r.v, ino, r.err) else r);
    }

    /** sfs_creat. */
    method Creat(name: seq<Byte>, excl: bool, ghost own: map<nat, Owner>, ghost es: seq<Entry>)
      returns (err: Option<Errno>, ino: nat)
      requires Valid() && VolInv(Now(), own, es) && ROOT_INO in refs && IsString(name)
      modifies this`refs, this`dirty, vol`inodes, vol.freemap.v, vol.disk
      ensures Valid() && Fit(old(vol.State())) && Ends(Create(old(Now()), name, excl), err, ino)
    {
      ghost var v := Now();
      ghost var s := FindKeeps(v, own, es, name);
      var at, empty;
      err, at, ino, empty := FindNameIn(vol, ROOT_INO, name, own, es);
      if at.Some? {
        if excl {
          err := Some(EEXIST);
        } else {
          Incref(ino);
        }
      } else {
        err, ino := CreatNew(name, excl, own, es);
      }
    }

    /** The entry of a name goes, its file has one link less, and the file is let go of. Clearing the
        entry cannot fail here, so there is nothing to take back. */
    method DropName(ino: nat, slot: nat, ghost own: map<nat, Owner>, ghost es: seq<Entry>) returns (err: Option<Errno>)
      requires Valid() && VolInv(Now(), own, es) && ROOT_INO in refs && ino in refs
      requires slot < |es| && es[slot].Used? && es[slot].ino == ino
      modifies this`refs, this`dirty, vol`inodes, vol.freemap.v, vol.disk
      ensures Valid() && Fit(old(vol.State())) && err == None
      ensures var w := DirUnlink(old(vol.State()), ROOT_INO, slot);
              && w.Wrote? && w.err == None && Fit(w.fs) && ino in w.fs.files && w.fs.files[ino].links > 0
              && var v2 := Recount(Touch(old(Now()), ROOT_INO, w.fs), ino, -1);
              Shaped(v2.fs) && Release(v2, ino) == Some(Now())
    {
      ghost var w, v2, es2 := ClearName(Now(), own, es, ino, slot);
      err := ClearSlot(slot);
      Relink(ino, -1);
      Decref(ino, own, es2);
    }

    /** sfs_remove. */
    method RemoveName(name: seq<Byte>, ghost own: map<nat, Owner>, ghost es: seq<Entry>)
      returns (err: Option<Errno>, ino: nat)
      requires Valid() && VolInv(Now(), own, es) && ROOT_INO in refs
      modifies this`refs, this`dirty, vol`inodes, vol.freemap.v, vol.disk
      ensures Valid() && Fit(old(vol.State())) && Ends(Remove(old(Now()), name), err, ino)
    {
      ghost var v := Now();
      ghost var l := LookKeeps(v, own, es, name);
      var slot;
      err, ino, slot := LookUp(name, own, es);
      if err == None {
        err := DropName(ino, slot, own, es);
        ghost var w := DirUnlink(v.fs, ROOT_INO, slot);
        RemoveIs(v, name, l, w, Recount(Touch(l.v, ROOT_INO, w.fs), ino, -1), Now());
      }
    }

    /** sfs_rename, in one directory. */
    method RenameTo(from: seq<Byte>, to: seq<Byte>, ghost own: map<nat, Owner>, ghost es: seq<Entry>)
      returns (err: Option<Errno>, ino: nat)
      requires Valid() && VolInv(Now(), own, es) && ROOT_INO in refs && IsString(to)
      modifies this`refs, this`dirty, vol`inodes, vol.freemap.v, vol.disk
      ensures Valid() && Fit(old(vol.State())) && Ends(Rename(old(Now()), from, to), err, ino)
    {
      ghost var v := Now();
      ghost var l := LookKeeps(v, own, es, from);
      var slot, slot';
      err, ino, slot := LookUp(from, own, es);
      if err == None {
        ghost var k, v2, own2, es2 := EnterName(Now(), own, es, ino, to);
        err, slot' := LinkSteps(to, ino, own, es);
        if err == None {
          SlotStays(es, slot, ino, from, k.slot, to);
          err := DropName(ino, slot, own2, es2);
          ghost var w := DirUnlink(v2.fs, ROOT_INO, slot);
          RenameMoves(v, from, to, l, k, v2, w, Recount(Touch(v2, ROOT_INO, w.fs), ino, -1), Now());
        } else {
          Decref(ino, own2, es2);
          RenameFails(v, from, to, l, k, v2, Now());
        }
      }
    }
  }

  lemma LinkSound(v: Vol, own: map<nat, Owner>, es: seq<Entry>, name: seq<Byte>, ino: nat)
    returns (r: Outcome, own': map<nat, Owner>, es': seq<Entry>)
    requires VolInv(v, own, es) && ROOT_INO in v.refs && ino in v.refs && IsString(name)
    ensures ino < WORD_LIMIT && r == Link(v, name, ino) && !r.Panicked? && VolInv(r.v, own', es') && r.v.refs == v.refs
  {
    r, own', es' := LinkKeeps(v, own, es, name, ino);
  }

  lemma SlotStays(es: seq<Entry>, slot: nat, ino: nat, from: seq<Byte>, slot': nat, to: seq<Byte>)
    requires slot < |es| && es[slot] == Used(ino, from) && slot' <= |es| && Before(es, slot') == Free
    ensures slot < |Written(es, slot', Used(ino, to))| && Written(es, slot', Used(ino, to))[slot] == es[slot]
  {
  }

  lemma ErasedVol(v: Vol, ino: nat, fs1: Fs)
    requires Shaped(v.fs) && ino in v.fs.files && ino < |v.fs.disk| && Itrunc(v.fs, ino, 0) == Some(fs1)
    requires ino in fs1.files && InodeOk(fs1.files[ino]) && |fs1.disk| == |v.fs.disk| && ino in fs1.used
    ensures var fs2 := WithoutFile(WriteBlock(fs1, ino, EncodeInode(fs1.files[ino])), ino);
            EraseVnode(v, ino) == Some(Vol(fs2, v.refs - {ino}, v.dirty - {ino}))
  {
  }
}
