/** Names and link counts: the operations on the root directory, over files, their vnodes and the
    directory's slots. */
module SfsNames {
  import opened Common
  import opened SfsDisk
  import opened SfsState
  import opened SfsOwnership
  import opened SfsTruncate
  import opened SfsIo
  import opened SfsDir
  import opened SfsCache

  /** The volume with its vnodes: how often each is referenced, and which have changed since they
      were last written to disk. */
  datatype Vol = Vol(fs: Fs, refs: map<nat, nat>, dirty: set<nat>)

  predicate Fit(fs: Fs) { Shaped(fs) && ROOT_INO in fs.files }

  // ---------------------------------------------------------------------------------------------
  // Vnodes

  /** The inode of ino, which is loaded, after an operation on the file. */
  function Touch(v: Vol, ino: nat, fs': Fs): Vol
    requires ino in v.fs.files && ino in fs'.files
  {
    v.(fs := fs', dirty := if fs'.files[ino] == v.fs.files[ino] then v.dirty else v.dirty + {ino})
  }

  /** One more reference to the vnode of ino, loaded if need be. */
  function Hold(v: Vol, ino: nat): Vol
  {
    v.(refs := v.refs[ino := (if ino in v.refs then v.refs[ino] else 0) + 1])
  }

  /** n as a 16-bit number. */
  function Half(n: int): nat { if 0 <= n < HALF_LIMIT then n else n % HALF_LIMIT }

  /** The link count goes up or down by d. */
  function Recount(v: Vol, ino: nat, d: int): Vol
    requires ino in v.fs.files
  {
    var f := v.fs.files[ino];
    v.(fs := SetFile(v.fs, ino, f.(links := Half(f.links + d))), dirty := v.dirty + {ino})
  }

  /** sfs_sync_inode. */
  function SyncVnode(v: Vol, ino: nat): Vol
    requires ino in v.fs.files && ino < |v.fs.disk| && InodeOk(v.fs.files[ino])
  {
    if ino !in v.dirty then v
    else v.(fs := WriteBlock(v.fs, ino, EncodeInode(v.fs.files[ino])), dirty := v.dirty - {ino})
  }

  /** The end of sfs_reclaim for a file without links; None stands for a panic. */
  function EraseVnode(v: Vol, ino: nat): Option<Vol>
    requires Shaped(v.fs) && ino in v.fs.files && ino < |v.fs.disk|
  {
    match Itrunc(v.fs, ino, 0)
    case None => None
    case Some(fs1) =>
      if ino !in fs1.files || !InodeOk(fs1.files[ino]) || |fs1.disk| != |v.fs.disk| || ino !in fs1.used then None
      else
        var fs2 := WithoutFile(WriteBlock(fs1, ino, EncodeInode(fs1.files[ino])), ino);
        Some(Vol(fs2, v.refs - {ino}, v.dirty - {ino}))
  }

  /** vnode_decref with sfs_reclaim: the last reference writes the inode back, or erases a file
      that has no links. */
  function Release(v: Vol, ino: nat): Option<Vol>
    requires Shaped(v.fs)
  {
    if ino !in v.refs || v.refs[ino] == 0 || ino !in v.fs.files || ino >= |v.fs.disk| then None
    else if v.refs[ino] > 1 then Some(v.(refs := v.refs[ino := v.refs[ino] - 1]))
    else if v.fs.files[ino].links == 0 then EraseVnode(v, ino)
    else Some(SyncVnode(v, ino).(refs := v.refs - {ino}))
  }

  /** The inode of a new file: a cleared block with the type set. */
  const BLANK_FILE: Inode := Inode(0, TYPE_FILE, 0, [0, 0, 0, 0, 0, 0, 0, 0, 0, 0, 0, 0, 0, 0, 0], 0)

  /** sfs_makeobj on a volume that is not full. */
  function MakeFile(v: Vol): Vol
    requires Shaped(v.fs) && !Full(v.fs)
  {
    var b := NextBlock(v.fs);
    Vol(SetFile(TakeBlock(v.fs), b, BLANK_FILE), v.refs[b := 1], v.dirty + {b})
  }

  // ---------------------------------------------------------------------------------------------
  // Operations on the root directory

  datatype Outcome = Done(v: Vol, ino: nat) | Failed(v: Vol, err: Errno) | Panicked

  /** Let go of ino and fail with err. */
  function GiveUp(v: Vol, ino: nat, err: Errno): Outcome
    requires Shaped(v.fs)
  {
    match Release(v, ino)
    case None => Panicked
    case Some(v') => Failed(v', err)
  }

  function LetGo(v: Vol, ino: nat): Outcome
    requires Shaped(v.fs)
  {
    match Release(v, ino)
    case None => Panicked
    case Some(v') => Done(v', ino)
  }

  /** sfs_link: a further name for the file of a vnode in hand. */
  function Link(v: Vol, name: seq<Byte>, ino: nat): Outcome
    requires Fit(v.fs) && ino in v.fs.files && ino < WORD_LIMIT
  {
    if v.fs.files[ino].kind == TYPE_DIR then Failed(v, EINVAL)
    else
      match DirLink(v.fs, ROOT_INO, name, ino)
      case LinkPanic => Panicked
      case NotLinked(fs', e) => if Fit(fs') then Failed(Touch(v, ROOT_INO, fs'), e) else Panicked
      case Linked(fs', _) =>
        if !Fit(fs') || ino !in fs'.files then Panicked
        else Done(Recount(Touch(v, ROOT_INO, fs'), ino, 1), ino)
  }

  /** sfs_creat. */
  function Create(v: Vol, name: seq<Byte>, excl: bool): Outcome
    requires Fit(v.fs)
  {
    match FindName(v.fs, ROOT_INO, name)
    case FindPanic => Panicked
    case FindError(e) => Failed(v, e)
    case Searched(slot, ino, _) =>
      if slot.Some? then
        if excl then Failed(v, EEXIST)
        else if ino !in v.fs.files then Panicked
        else Done(Hold(v, ino), ino)
      else if Full(v.fs) then Failed(v, ENOSPC)
      else
        var v1, b := MakeFile(v), NextBlock(v.fs);
        if !Fit(v1.fs) then Panicked
        else
          match Link(v1, name, b)
          case Failed(v2, e) => if Shaped(v2.fs) then GiveUp(v2, b, e) else Panicked
          case other => other
  }

  /** sfs_lookonce: the vnode of a name, with its slot. */
  datatype LookResult = Look(v: Vol, ino: nat, slot: nat) | NoLook(err: Errno) | LookPanic

  function LookOnce(v: Vol, name: seq<Byte>): LookResult
    requires Fit(v.fs)
  {
    match FindName(v.fs, ROOT_INO, name)
    case FindPanic => LookPanic
    case FindError(e) => NoLook(e)
    case Searched(slot, ino, _) =>
      if slot.None? then NoLook(ENOENT)
      else if ino !in v.fs.files || v.fs.files[ino].links == 0 then LookPanic
      else Look(Hold(v, ino), ino, slot.value)
  }

  /** sfs_remove. */
  function Remove(v: Vol, name: seq<Byte>): Outcome
    requires Fit(v.fs)
  {
    match LookOnce(v, name)
    case LookPanic => Panicked
    case NoLook(e) => Failed(v, e)
    case Look(v1, ino, slot) =>
      match DirUnlink(v.fs, ROOT_INO, slot)
      case WritePanic => Panicked
      case Wrote(fs', _, e) =>
        if !Fit(fs') || ino !in fs'.files then Panicked
        else
          var v2 := Touch(v1, ROOT_INO, fs');
          if e.Some? then GiveUp(v2, ino, e.value)
          else if fs'.files[ino].links == 0 then Panicked
          else LetGo(Recount(v2, ino, -1), ino)
  }

  /** sfs_rename, in one directory. */
  function Rename(v: Vol, from: seq<Byte>, to: seq<Byte>): Outcome
    requires Fit(v.fs)
  {
    match LookOnce(v, from)
    case LookPanic => Panicked
    case NoLook(e) => Failed(v, e)
    case Look(v1, ino, slot) =>
      if v.fs.files[ino].kind != TYPE_FILE || ino >= WORD_LIMIT then Panicked
      else
        match DirLink(v.fs, ROOT_INO, to, ino)
        case LinkPanic => Panicked
        case NotLinked(fs', e) => if !Fit(fs') then Panicked else GiveUp(Touch(v1, ROOT_INO, fs'), ino, e)
        case Linked(fs', slot') =>
          if !Fit(fs') || ino !in fs'.files then Panicked
          else MoveEntry(Recount(Touch(v1, ROOT_INO, fs'), ino, 1), ino, slot, slot')
  }

  /** The second half of sfs_rename: the old entry goes, or else the new one. */
  function MoveEntry(v: Vol, ino: nat, slot: nat, slot': nat): Outcome
    requires Fit(v.fs) && ino in v.fs.files
  {
    match DirUnlink(v.fs, ROOT_INO, slot)
    case WritePanic => Panicked
    case Wrote(fs', _, e) =>
      if !Fit(fs') || ino !in fs'.files then Panicked
      else
        var v1 := Touch(v, ROOT_INO, fs');
        if e.None? then
          if fs'.files[ino].links == 0 then Panicked else LetGo(Recount(v1, ino, -1), ino)
        else
          match DirUnlink(fs', ROOT_INO, slot')
          case WritePanic => Panicked
          case Wrote(fs2, _, e2) =>
            if e2.Some? || !Fit(fs2) || ino !in fs2.files then Panicked
            else GiveUp(Recount(Touch(v1, ROOT_INO, fs2), ino, -1), ino, e.value)
  }

  // ---------------------------------------------------------------------------------------------
  // Counting names

  function One(e: Entry, ino: nat): nat { if e.Used? && e.ino == ino then 1 else 0 }

  /** How many of the first n entries name ino. */
  function CountTo(es: seq<Entry>, n: nat, ino: nat): (c: nat)
    requires n <= |es|
    ensures c <= n
  {
    if n == 0 then 0 else CountTo(es, n - 1, ino) + One(es[n - 1], ino)
  }

  function Count(es: seq<Entry>, ino: nat): nat { CountTo(es, |es|, ino) }

  function Before(es: seq<Entry>, slot: nat): Entry { if slot < |es| then es[slot] else Free }

  lemma {:induction false} CountChanged(es: seq<Entry>, es': seq<Entry>, slot: nat, n: nat, ino: nat)
    requires n <= |es| && n <= |es'| && slot < |es'| && forall i | 0 <= i < n && i != slot :: es'[i] == es[i]
    ensures CountTo(es', n, ino)
            == CountTo(es, n, ino) + if slot < n then One(es'[slot], ino) - One(es[slot], ino) else 0
  {
    if n > 0 {
      CountChanged(es, es', slot, n - 1, ino);
    }
  }

  lemma CountWritten(es: seq<Entry>, slot: nat, e: Entry, ino: nat)
    requires slot <= |es|
    ensures Count(Written(es, slot, e), ino) == Count(es, ino) - One(Before(es, slot), ino) + One(e, ino)
  {
    CountChanged(es, Written(es, slot, e), slot, |es|, ino);
  }

  lemma {:induction false} CountZero(es: seq<Entry>, n: nat, ino: nat)
    requires n <= |es|
    ensures CountTo(es, n, ino) == 0 <==> forall i | 0 <= i < n :: One(es[i], ino) == 0
  {
    if n > 0 {
      CountZero(es, n - 1, ino);
    }
  }

  // ---------------------------------------------------------------------------------------------
  // The invariant

  /** Every entry names a file other than the directory itself. */
  predicate EntriesOk(files: map<nat, Inode>, es: seq<Entry>)
  {
    forall i | 0 <= i < |es| && es[i].Used? :: es[i].ino in files && es[i].ino != ROOT_INO
  }

  /** Link counts are numbers of names, but that d names of x are still to be counted. */
  predicate LinksOk(files: map<nat, Inode>, es: seq<Entry>, x: nat, d: int)
  {
    && ROOT_INO in files && files[ROOT_INO].links > 0
    && forall k | k in files && k != ROOT_INO ::
         files[k].kind == TYPE_FILE && files[k].links + (if k == x then d else 0) == Count(es, k)
  }

  /** Vnodes are of files, and referenced; an inode that is not marked dirty is as on disk; and a
      file without links is in somebody's hands. */
  predicate HeldOk(v: Vol)
  {
    && (forall k | k in v.refs :: k in v.fs.files && v.refs[k] > 0)
    && (forall k | k in v.dirty :: k in v.refs)
    && (forall k | k in v.fs.files && k !in v.dirty :: k < |v.fs.disk| && DecodeInode(v.fs.disk[k]) == v.fs.files[k])
    && (forall k | k in v.fs.files && v.fs.files[k].links == 0 :: k in v.refs)
  }

  ghost predicate Sound(v: Vol, own: map<nat, Owner>, es: seq<Entry>, x: nat, d: int)
  {
    && Inv(v.fs, own) && DirIs(v.fs, ROOT_INO, es) && Unique(es)
    && EntriesOk(v.fs.files, es) && LinksOk(v.fs.files, es, x, d) && HeldOk(v)
  }

  ghost predicate VolInv(v: Vol, own: map<nat, Owner>, es: seq<Entry>)
  {
    Sound(v, own, es, ROOT_INO, 0)
  }

  // ---------------------------------------------------------------------------------------------
  // Single steps

  /** The blocks that hold inodes are as before. */
  predicate SameInodeBlocks(fs: Fs, fs': Fs)
  {
    forall k | k in fs.files :: k < |fs.disk| && k < |fs'.disk| && fs'.disk[k] == fs.disk[k]
  }

  predicate SameInodeBlocksBut(fs: Fs, fs': Fs, ino: nat)
  {
    forall k | k in fs.files && k != ino :: k < |fs.disk| && k < |fs'.disk| && fs'.disk[k] == fs.disk[k]
  }

  lemma InodeBlocksKept(fs: Fs, own: map<nat, Owner>, fs': Fs)
    requires Inv(fs, own) && InodesKept(fs, fs', own)
    ensures SameInodeBlocks(fs, fs')
  {
    forall k | k in fs.files ensures k < |fs.disk| && fs'.disk[k] == fs.disk[k] {
      assert FileOwns(fs, own, k);
    }
  }

  /** Only the inode of ino is different, and not in its type and links. */
  predicate OnlyInode(files: map<nat, Inode>, files': map<nat, Inode>, ino: nat)
  {
    && files'.Keys == files.Keys && ino in files
    && (forall k | k in files && k != ino :: files'[k] == files[k])
    && files'[ino].kind == files[ino].kind && files'[ino].links == files[ino].links
  }

  lemma TouchHeld(v: Vol, ino: nat, fs': Fs)
    requires HeldOk(v) && ino in v.refs && OnlyInode(v.fs.files, fs'.files, ino) && SameInodeBlocks(v.fs, fs')
    ensures HeldOk(Touch(v, ino, fs'))
  {
  }

  lemma TouchLinks(files: map<nat, Inode>, files': map<nat, Inode>, ino: nat, es: seq<Entry>, x: nat, d: int)
    requires OnlyInode(files, files', ino) && EntriesOk(files, es) && LinksOk(files, es, x, d)
    ensures EntriesOk(files', es) && LinksOk(files', es, x, d)
  {
  }

  lemma TouchRoot(v: Vol, own: map<nat, Owner>, fs': Fs, own': map<nat, Owner>, es': seq<Entry>, x: nat, d: int)
    requires Inv(v.fs, own) && HeldOk(v) && ROOT_INO in v.refs && Inv(fs', own') && Elsewhere(v.fs, own, fs', ROOT_INO)
    requires DirIs(fs', ROOT_INO, es') && Unique(es') && EntriesOk(v.fs.files, es') && LinksOk(v.fs.files, es', x, d)
    ensures Sound(Touch(v, ROOT_INO, fs'), own', es', x, d)
  {
    InodeBlocksKept(v.fs, own, fs');
    TouchHeld(v, ROOT_INO, fs');
    TouchLinks(v.fs.files, fs'.files, ROOT_INO, es', x, d);
  }

  /** A directory whose inode and bytes stay keeps its slots. */
  lemma DirSameBytes(fs: Fs, fs': Fs, dir: nat, es: seq<Entry>)
    requires Shaped(fs) && Shaped(fs') && DirIs(fs, dir, es) && dir in fs'.files && fs'.files[dir] == fs.files[dir]
    requires forall o: nat :: ByteAt(fs', fs'.files[dir], o) == ByteAt(fs, fs.files[dir], o)
    ensures DirIs(fs', dir, es)
  {
    var f := fs.files[dir];
    forall k | 0 <= k < |es| ensures EntryAt(fs', f, k) == es[k] {
      var off := SlotOffset(k);
      assert BytesAt(fs', f, off, ENTRY) == BytesAt(fs, f, off, ENTRY);
    }
  }

  lemma DirSame(fs: Fs, fs': Fs, dir: nat, es: seq<Entry>)
    requires Shaped(fs) && Shaped(fs') && DirIs(fs, dir, es) && dir in fs'.files && fs'.files[dir] == fs.files[dir]
    requires forall fb: nat :: ContentOf(fs', fs.files[dir], fb) == ContentOf(fs, fs.files[dir], fb)
    ensures DirIs(fs', dir, es)
  {
    DirSameBytes(fs, fs', dir, es);
  }

  lemma LinkCounts(files: map<nat, Inode>, es: seq<Entry>, slot: nat, x: nat, name: seq<Byte>, es': seq<Entry>)
    requires EntriesOk(files, es) && LinksOk(files, es, x, 0) && x in files && x != ROOT_INO
    requires slot <= |es| && Before(es, slot) == Free && es' == Written(es, slot, Used(x, name))
    ensures EntriesOk(files, es') && LinksOk(files, es', x, 1)
  {
    forall k | k in files ensures Count(es', k) == Count(es, k) + if k == x then 1 else 0 {
      CountWritten(es, slot, Used(x, name), k);
    }
  }

  lemma LinkUnique(es: seq<Entry>, slot: nat, x: nat, name: seq<Byte>)
    requires Unique(es) && !HasName(es, name) && slot <= |es|
    ensures Unique(Written(es, slot, Used(x, name)))
  {
  }

  /** A name for x is entered. */
  lemma LinkStep(v: Vol, own: map<nat, Owner>, es: seq<Entry>, x: nat, name: seq<Byte>)
    returns (r: LinkResult, own': map<nat, Owner>, es': seq<Entry>)
    requires Sound(v, own, es, x, 0) && ROOT_INO in v.refs && x in v.fs.files && x != ROOT_INO && IsString(name)
    ensures 0 < x < WORD_LIMIT && r == DirLink(v.fs, ROOT_INO, name, x)
    ensures LinkContract(v.fs, own, ROOT_INO, es, name, x, r, own')
    ensures es' == if r.Linked? then Written(es, r.slot, Used(x, name)) else es
    ensures Sound(Touch(v, ROOT_INO, r.fs), own', es', x, if r.Linked? then 1 else 0)
  {
    FileNumber(v.fs, own, x);
    r, own' := DirLinkKeeps(v.fs, own, ROOT_INO, es, name, x);
    if r.Linked? {
      es' := Written(es, r.slot, Used(x, name));
      LinkCounts(v.fs.files, es, r.slot, x, name, es');
      LinkUnique(es, r.slot, x, name);
      TouchRoot(v, own, r.fs, own', es', x, 1);
    } else {
      es' := es;
      TouchRoot(v, own, r.fs, own', es', x, 0);
    }
  }

  /** No file has the number that marks a free slot. */
  lemma FileNumber(fs: Fs, own: map<nat, Owner>, ino: nat)
    requires Inv(fs, own) && ino in fs.files
    ensures 0 < ino < |fs.disk| && ino < WORD_LIMIT && InodeOk(fs.files[ino])
  {
    assert FileOwns(fs, own, ino);
    assert Backed(fs, ino, own[ino]);
  }

  lemma UnlinkCounts(files: map<nat, Inode>, es: seq<Entry>, slot: nat, x: nat, es': seq<Entry>)
    requires EntriesOk(files, es) && LinksOk(files, es, x, 0) && slot < |es| && es[slot].Used? && es[slot].ino == x
    requires es' == es[slot := Free]
    ensures EntriesOk(files, es') && LinksOk(files, es', x, -1)
  {
    forall k | k in files ensures Count(es', k) == Count(es, k) - if k == x then 1 else 0 {
      CountWritten(es, slot, Free, k);
    }
  }

  lemma UnlinkUnique(es: seq<Entry>, slot: nat)
    requires Unique(es) && slot < |es|
    ensures Unique(es[slot := Free])
  {
  }

  /** A name for x is cleared. */
  lemma UnlinkStep(v: Vol, own: map<nat, Owner>, es: seq<Entry>, x: nat, slot: nat)
    returns (r: WriteResult, es': seq<Entry>)
    requires Sound(v, own, es, x, 0) && ROOT_INO in v.refs && slot < |es| && es[slot].Used? && es[slot].ino == x
    ensures r == DirUnlink(v.fs, ROOT_INO, slot) && r.Wrote? && r.err == None && Inv(r.fs, own)
    ensures Elsewhere(v.fs, own, r.fs, ROOT_INO) && es' == es[slot := Free]
    ensures Sound(Touch(v, ROOT_INO, r.fs), own, es', x, -1)
  {
    r := DirUnlinkKeeps(v.fs, own, ROOT_INO, es, slot);
    es' := es[slot := Free];
    UnlinkCounts(v.fs.files, es, slot, x, es');
    UnlinkUnique(es, slot);
    TouchRoot(v, own, r.fs, own, es', x, -1);
  }

  lemma CountLinks(files: map<nat, Inode>, es: seq<Entry>, x: nat, d: int, files': map<nat, Inode>)
    requires EntriesOk(files, es) && LinksOk(files, es, x, d) && x in files && x != ROOT_INO
    requires files' == files[x := files[x].(links := Count(es, x))]
    ensures EntriesOk(files', es) && LinksOk(files', es, x, 0)
  {
  }

  lemma CountHeld(v: Vol, x: nat, f: Inode, v': Vol)
    requires HeldOk(v) && x in v.refs && x in v.fs.files && v' == v.(fs := SetFile(v.fs, x, f), dirty := v.dirty + {x})
    ensures HeldOk(v')
  {
  }

  lemma RecountIs(v: Vol, x: nat, d: int, n: nat, f': Inode, v': Vol)
    requires x in v.fs.files && n == v.fs.files[x].links + d && n < HALF_LIMIT && f' == v.fs.files[x].(links := n)
    requires v' == v.(fs := SetFile(v.fs, x, f'), dirty := v.dirty + {x})
    ensures v' == Recount(v, x, d) && OnlyLinks(v.fs.files, v'.fs.files, x, n)
  {
  }

  lemma CountInode(fs: Fs, own: map<nat, Owner>, es: seq<Entry>, x: nat, f': Inode) returns (fs': Fs)
    requires Inv(fs, own) && DirIs(fs, ROOT_INO, es) && x in fs.files && x != ROOT_INO && InodeOk(f')
    requires f' == fs.files[x].(links := f'.links)
    ensures fs' == SetFile(fs, x, f') && Inv(fs', own) && DirIs(fs', ROOT_INO, es)
    ensures forall k, fb: nat | k in fs.files :: ContentOf(fs', fs'.files[k], fb) == ContentOf(fs, fs.files[k], fb)
  {
    InodeFieldsKeep(fs, own, x, f');
    fs' := SetFile(fs, x, f');
    DirSame(fs, fs', ROOT_INO, es);
  }

  /** Only the link count of x differs: it is n. */
  predicate OnlyLinks(files: map<nat, Inode>, files': map<nat, Inode>, x: nat, n: int)
  {
    && files'.Keys == files.Keys && x in files && files'[x].links == n
    && (forall k | k in files && k != x :: files'[k] == files[k])
    && files'[x].kind == files[x].kind && files'[x].size == files[x].size
  }

  /** The link count of x, which is loaded, catches up; it cannot overflow. */
  lemma CountStep(v: Vol, own: map<nat, Owner>, es: seq<Entry>, x: nat, d: int) returns (v': Vol)
    requires Sound(v, own, es, x, d) && x in v.refs && x != ROOT_INO
    ensures v' == Recount(v, x, d) && OnlyLinks(v.fs.files, v'.fs.files, x, Count(es, x))
    ensures v'.refs == v.refs && Sound(v', own, es, x, 0)
    ensures forall k, fb: nat | k in v.fs.files ::
            ContentOf(v'.fs, v'.fs.files[k], fb) == ContentOf(v.fs, v.fs.files[k], fb)
  {
    var n := Count(es, x);
    var f' := v.fs.files[x].(links := n);
    var fs' := CountInode(v.fs, own, es, x, f');
    v' := v.(fs := fs', dirty := v.dirty + {x});
    CountLinks(v.fs.files, es, x, d, fs'.files);
    CountHeld(v, x, f', v');
    RecountIs(v, x, d, n, f', v');
  }

  // ---------------------------------------------------------------------------------------------
  // Holding and releasing vnodes

  lemma HoldHeld(v: Vol, ino: nat)
    requires HeldOk(v) && ino in v.fs.files
    ensures HeldOk(Hold(v, ino))
  {
  }

  lemma HoldStep(v: Vol, own: map<nat, Owner>, es: seq<Entry>, ino: nat)
    requires VolInv(v, own, es) && ino in v.fs.files
    ensures VolInv(Hold(v, ino), own, es)
  {
    HoldHeld(v, ino);
  }

  lemma SyncHeld(v: Vol, ino: nat, d: Block, v': Vol)
    requires HeldOk(v) && ino in v.fs.files && ino < |v.fs.disk| && DecodeInode(d) == v.fs.files[ino]
    requires v' == v.(fs := WriteBlock(v.fs, ino, d), dirty := v.dirty - {ino})
    ensures HeldOk(v')
  {
    forall k | k in v.fs.files && k !in v'.dirty
      ensures k < |v'.fs.disk| && DecodeInode(v'.fs.disk[k]) == v.fs.files[k]
    {
      var now := v'.fs.disk[k];
      assert k == ino ==> now == d;
      assert k != ino ==> now == v.fs.disk[k];
    }
  }

  /** Writing an inode back changes no file. */
  lemma SyncStep(v: Vol, own: map<nat, Owner>, es: seq<Entry>, ino: nat) returns (v': Vol)
    requires VolInv(v, own, es) && ino in v.fs.files
    ensures ino < |v.fs.disk| && InodeOk(v.fs.files[ino]) && v' == SyncVnode(v, ino) && ino !in v'.dirty
    ensures v'.refs == v.refs
    ensures VolInv(v', own, es) && FilesKept(v.fs, v'.fs)
  {
    FileNumber(v.fs, own, ino);
    v' := SyncVnode(v, ino);
    if ino in v.dirty {
      InodeRoundTrip(v.fs.files[ino]);
      var d := EncodeInode(v.fs.files[ino]);
      var fs' := InodeBlockWrite(v.fs, own, ino, d);
      DirSame(v.fs, fs', ROOT_INO, es);
      SyncHeld(v, ino, d, v');
    }
  }

  /** The blocks of a file, the one of its inode included. */
  ghost function BlocksOf(own: map<nat, Owner>, ino: nat): set<nat>
  {
    set b | b in own && BelongsTo(own[b], ino)
  }

  /** Truncated to nothing, a file keeps only the block of its inode. */
  lemma Emptied(fs: Fs, own: map<nat, Owner>, ino: nat) returns (fs1: Fs, own1: map<nat, Owner>)
    requires Inv(fs, own) && ino in fs.files
    ensures Itrunc(fs, ino, 0) == Some(fs1) && Inv(fs1, own1) && own1 - {ino} == OthersOf(own, ino)
    ensures OthersKept(fs, fs1, ino)
    ensures ino in fs1.files && fs1.files == fs.files[ino := fs1.files[ino]] && SameInodeBlocks(fs, fs1)
    ensures |fs1.disk| == |fs.disk|
    ensures fs1.files[ino].indirect == 0 && forall i | 0 <= i < NDIRECT :: fs1.files[ino].direct[i] == 0
  {
    fs1 := ItruncKeeps(fs, own, ino, 0);
    own1 := OwnersLeft(own, ino, 0, 0);
    NothingLeft(fs, own, ino, fs1);
    OwnersGone(fs, own, ino);
    InodeBlocksKept(fs, own, fs1);
  }

  /** Erasing a file: truncated, its inode written out, its block given back. */
  lemma EraseFile(fs: Fs, own: map<nat, Owner>, ino: nat) returns (fs1: Fs, fs': Fs)
    requires Inv(fs, own) && ino in fs.files && ino != ROOT_INO
    ensures Itrunc(fs, ino, 0) == Some(fs1) && ino in fs1.files && InodeOk(fs1.files[ino]) && |fs1.disk| == |fs.disk|
    ensures ino in fs1.used
    ensures ino < |fs.disk| && fs' == WithoutFile(WriteBlock(fs1, ino, EncodeInode(fs1.files[ino])), ino)
    ensures Inv(fs', OthersOf(own, ino)) && OthersKept(fs, fs', ino) && fs'.files == fs.files - {ino}
    ensures SameInodeBlocksBut(fs, fs', ino)
  {
    var own1;
    fs1, own1 := Emptied(fs, own, ino);
    FileNumber(fs1, own1, ino);
    var fs2 := InodeBlockWrite(fs1, own1, ino, EncodeInode(fs1.files[ino]));
    fs' := RemoveFile(fs2, own1, ino);
    OthersChain(fs, fs1, fs2, fs', ino);
    ErasedMaps(fs, fs1, ino, EncodeInode(fs1.files[ino]), fs');
  }

  lemma ErasedMaps(fs: Fs, fs1: Fs, ino: nat, d: Block, fs': Fs)
    requires ino < |fs1.disk| == |fs.disk| && SameInodeBlocks(fs, fs1)
    requires fs' == WithoutFile(WriteBlock(fs1, ino, d), ino)
    requires ino in fs1.files && fs1.files == fs.files[ino := fs1.files[ino]]
    ensures fs'.files == fs.files - {ino} && SameInodeBlocksBut(fs, fs', ino)
  {
  }

  lemma OthersChain(fs: Fs, fs1: Fs, fs2: Fs, fs': Fs, ino: nat)
    requires Shaped(fs) && Shaped(fs1) && Shaped(fs2) && Shaped(fs')
    requires OthersKept(fs, fs1, ino) && FilesKept(fs1, fs2) && OthersKept(fs2, fs', ino)
    ensures OthersKept(fs, fs', ino)
  {
  }

  lemma EraseLinks(files: map<nat, Inode>, es: seq<Entry>, ino: nat, files': map<nat, Inode>)
    requires EntriesOk(files, es) && LinksOk(files, es, ROOT_INO, 0) && ino in files && files[ino].links == 0
    requires files' == files - {ino}
    ensures ino != ROOT_INO && EntriesOk(files', es) && LinksOk(files', es, ROOT_INO, 0)
  {
    CountZero(es, |es|, ino);
    forall i | 0 <= i < |es| && es[i].Used? ensures es[i].ino in files' {
      assert One(es[i], ino) == 0;
    }
  }

  lemma EraseHeld(v: Vol, ino: nat, fs': Fs)
    requires HeldOk(v) && fs'.files == v.fs.files - {ino}
    requires SameInodeBlocksBut(v.fs, fs', ino)
    ensures HeldOk(Vol(fs', v.refs - {ino}, v.dirty - {ino}))
  {
  }

  lemma EraseStep(v: Vol, own: map<nat, Owner>, es: seq<Entry>, ino: nat) returns (v': Vol)
    requires VolInv(v, own, es) && ino in v.refs && v.fs.files[ino].links == 0
    ensures ino < |v.fs.disk| && EraseVnode(v, ino) == Some(v') && VolInv(v', OthersOf(own, ino), es)
    ensures OthersKept(v.fs, v'.fs, ino) && v'.fs.files == v.fs.files - {ino} && v'.refs == v.refs - {ino}
  {
    var fs1, fs' := EraseFile(v.fs, own, ino);
    v' := Vol(fs', v.refs - {ino}, v.dirty - {ino});
    EraseLinks(v.fs.files, es, ino, fs'.files);
    EraseHeld(v, ino, fs');
    DirSame(v.fs, fs', ROOT_INO, es);
  }

  /** Letting go of a vnode: only the last reference to a file without links erases it, and then
      all its blocks are free again. */
  ghost predicate Released(v: Vol, own: map<nat, Owner>, ino: nat, v': Vol, own': map<nat, Owner>)
    requires Shaped(v.fs) && Shaped(v'.fs) && ino in v.refs && ino in v.fs.files
  {
    if v.refs[ino] == 1 && v.fs.files[ino].links == 0 then
      && own' == OthersOf(own, ino) && v'.fs.files == v.fs.files - {ino} && v'.fs.used == v.fs.used - BlocksOf(own, ino)
      && OthersKept(v.fs, v'.fs, ino) && v'.refs == v.refs - {ino}
    else
      own' == own && FilesKept(v.fs, v'.fs) && v'.refs == Dropped(v.refs, ino)
  }

  function Dropped(refs: map<nat, nat>, ino: nat): map<nat, nat>
    requires ino in refs
  {
    if refs[ino] <= 1 then refs - {ino} else refs[ino := refs[ino] - 1]
  }

  lemma DropHeld(v: Vol, ino: nat)
    requires HeldOk(v) && ino in v.refs
    requires (v.refs[ino] > 1 || (ino !in v.dirty && ino in v.fs.files && v.fs.files[ino].links > 0))
    ensures HeldOk(v.(refs := Dropped(v.refs, ino)))
  {
  }

  lemma ReleaseShared(v: Vol, own: map<nat, Owner>, es: seq<Entry>, ino: nat, v': Vol)
    requires VolInv(v, own, es) && ino in v.refs && v.refs[ino] > 1 && v' == v.(refs := Dropped(v.refs, ino))
    ensures Release(v, ino) == Some(v') && VolInv(v', own, es)
  {
    FileNumber(v.fs, own, ino);
    DropHeld(v, ino);
  }

  lemma ReleaseLast(v: Vol, own: map<nat, Owner>, es: seq<Entry>, ino: nat) returns (v': Vol)
    requires VolInv(v, own, es) && ino in v.refs && v.refs[ino] == 1 && v.fs.files[ino].links > 0
    ensures Release(v, ino) == Some(v') && VolInv(v', own, es) && FilesKept(v.fs, v'.fs)
    ensures v'.refs == Dropped(v.refs, ino)
  {
    FileNumber(v.fs, own, ino);
    var v1 := SyncStep(v, own, es, ino);
    v' := v1.(refs := Dropped(v.refs, ino));
    DropHeld(v1, ino);
  }

  lemma UsedWithout(fs: Fs, own: map<nat, Owner>, ino: nat, fs': Fs)
    requires Inv(fs, own) && Inv(fs', OthersOf(own, ino))
    ensures fs'.used == fs.used - BlocksOf(own, ino)
  {
    assert OthersOf(own, ino).Keys == own.Keys - BlocksOf(own, ino);
  }

  lemma ReleaseErases(v: Vol, own: map<nat, Owner>, es: seq<Entry>, ino: nat) returns (v': Vol)
    requires VolInv(v, own, es) && ino in v.refs && v.refs[ino] == 1 && v.fs.files[ino].links == 0
    ensures Release(v, ino) == Some(v') && VolInv(v', OthersOf(own, ino), es)
    ensures Released(v, own, ino, v', OthersOf(own, ino))
  {
    v' := EraseStep(v, own, es, ino);
    UsedWithout(v.fs, own, ino, v'.fs);
  }

  lemma ReleaseStep(v: Vol, own: map<nat, Owner>, es: seq<Entry>, ino: nat) returns (v': Vol, own': map<nat, Owner>)
    requires VolInv(v, own, es) && ino in v.refs
    ensures Release(v, ino) == Some(v') && VolInv(v', own', es) && Released(v, own, ino, v', own')
  {
    own' := own;
    if v.refs[ino] > 1 {
      v' := v.(refs := Dropped(v.refs, ino));
      ReleaseShared(v, own, es, ino, v');
    } else if v.fs.files[ino].links > 0 {
      v' := ReleaseLast(v, own, es, ino);
    } else {
      v' := ReleaseErases(v, own, es, ino);
      own' := OthersOf(own, ino);
    }
  }

  // ---------------------------------------------------------------------------------------------
  // Making a file

  lemma MakeLinks(files: map<nat, Inode>, es: seq<Entry>, b: nat, f: Inode)
    requires EntriesOk(files, es) && LinksOk(files, es, ROOT_INO, 0) && b !in files && f.links == 0
    requires f.kind == TYPE_FILE
    ensures EntriesOk(files[b := f], es) && LinksOk(files[b := f], es, ROOT_INO, 0)
  {
    CountZero(es, |es|, b);
  }

  lemma MakeHeld(v: Vol, b: nat, fs': Fs)
    requires HeldOk(v) && b !in v.fs.files && b in fs'.files && fs'.files == v.fs.files[b := fs'.files[b]]
    requires SameInodeBlocks(v.fs, fs')
    ensures HeldOk(Vol(fs', v.refs[b := 1], v.dirty + {b}))
  {
  }

  lemma BlankFile(f: Inode)
    requires f == BLANK_FILE
    ensures Blank(f)
  {
  }

  /** A new file: empty, without a name yet, in the hands of its maker. */
  lemma MakeStep(v: Vol, own: map<nat, Owner>, es: seq<Entry>) returns (v': Vol, own': map<nat, Owner>, b: nat)
    requires VolInv(v, own, es) && !Full(v.fs)
    ensures v' == MakeFile(v) && b == NextBlock(v.fs) && VolInv(v', own', es) && own' == own[b := InodeOf(b)]
    ensures b !in own
    ensures b !in v.fs.files && b in v'.fs.files && v'.fs.files == v.fs.files[b := v'.fs.files[b]]
    ensures v'.refs == v.refs[b := 1]
    ensures Blank(v'.fs.files[b]) && v'.fs.files[b].kind == TYPE_FILE && OthersKept(v.fs, v'.fs, b)
  {
    b := NextBlock(v.fs);
    FreshUnowned(v.fs, own);
    var f := BLANK_FILE;
    BlankFile(f);
    var fs' := NewFileKeeps(v.fs, own, f);
    own' := own[b := InodeOf(b)];
    v' := Vol(fs', v.refs[b := 1], v.dirty + {b});
    MakeLinks(v.fs.files, es, b, f);
    forall k | k in v.fs.files ensures k < |fs'.disk| && fs'.disk[k] == v.fs.disk[k] {
      FileNumber(v.fs, own, k);
    }
    MakeHeld(v, b, fs');
    DirSame(v.fs, fs', ROOT_INO, es);
  }
}
