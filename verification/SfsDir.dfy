/** The directory: slots of 64 bytes in a file, read and written one at a time. */
module SfsDir {
  import opened Common
  import opened SfsDisk
  import opened SfsState
  import opened SfsOwnership
  import opened SfsIo

  const ENTRY: nat := 64
  const NAME_LEN: nat := 60
  const MAX_SLOTS: nat := 1144    // MAX_BLOCKS * BLOCK / ENTRY

  // ---------------------------------------------------------------------------------------------
  // Entries

  datatype Entry = Free | Used(ino: nat, name: seq<Byte>)

  /** A string as the kernel passes it: no zero byte before its end. */
  predicate IsString(s: seq<Byte>)
  {
    forall i | 0 <= i < |s| :: s[i] != 0
  }

  /** The string that starts a buffer. */
  function CString(bs: seq<Byte>): (s: seq<Byte>)
    ensures s <= bs && IsString(s) && (|s| < |bs| ==> bs[|s|] == 0)
  {
    if bs == [] || bs[0] == 0 then [] else [bs[0]] + CString(bs[1..])
  }

  /** What 64 bytes of a directory say; the last byte of the name counts as zero. */
  function EntryOf(bs: seq<Byte>): Entry
    requires |bs| == ENTRY
  {
    var ino := Word(bs[0], bs[1], bs[2], bs[3]);
    if ino == 0 then Free else Used(ino, CString(bs[4..ENTRY - 1]))
  }

  function EncodeEntry(ino: nat, name: seq<Byte>): (bs: seq<Byte>)
    requires ino < WORD_LIMIT && |name| < NAME_LEN
    ensures |bs| == ENTRY
  {
    [ino / 256 / 256 / 256, ino / 256 / 256 % 256, ino / 256 % 256, ino % 256] + name + Zeros(NAME_LEN - |name|)
  }

  lemma CStringIs(bs: seq<Byte>, s: seq<Byte>)
    requires s <= bs && IsString(s) && (|s| < |bs| ==> bs[|s|] == 0)
    ensures CString(bs) == s
  {
    var t := CString(bs);
    assert |t| == |s|;
  }

  /** An entry as written reads back; a cleared one reads as free. */
  lemma EntryRoundTrip(ino: nat, name: seq<Byte>)
    requires ino < WORD_LIMIT && |name| < NAME_LEN && IsString(name)
    ensures EntryOf(EncodeEntry(ino, name)) == if ino == 0 then Free else Used(ino, name)
  {
    WordParts(ino);
    var bs := EncodeEntry(ino, name);
    var tail := bs[4..ENTRY - 1];
    assert forall i | 0 <= i < |name| :: bs[4 + i] == name[i];
    assert tail[..|name|] == name;
    if |name| < |tail| {
      assert bs[4 + |name|] == 0;
    }
    CStringIs(tail, name);
  }

  // ---------------------------------------------------------------------------------------------
  // sfs_metaio

  function MetaRead(fs: Fs, ino: nat, off: nat, n: nat): ReadResult
    requires Shaped(fs) && ino in fs.files && BlockOffset(off) + n <= BLOCK
  {
    match Bmap(fs, ino, FileBlock(off), false)
    case MapPanic => ReadPanic
    case MapError(_, e) => Read([], Some(e))
    case Mapped(_, b) => Read(BlockBytes(fs, b)[BlockOffset(off)..BlockOffset(off) + n], None)
  }

  function MetaWrite(fs: Fs, ino: nat, off: nat, data: seq<Byte>): WriteResult
    requires Shaped(fs) && ino in fs.files && BlockOffset(off) + |data| <= BLOCK
  {
    match WritePiece(fs, ino, off, data)
    case MapPanic => WritePanic
    case MapError(fs1, e) => Wrote(fs1, 0, Some(e))
    case Mapped(fs1, _) => if ino !in fs1.files then WritePanic else Wrote(Extend(fs1, ino, off, |data|), |data|, None)
  }

  /** The bytes [off, off + n) of a file. */
  function BytesAt(fs: Fs, f: Inode, off: nat, n: nat): (bs: seq<Byte>)
    requires |f.direct| == NDIRECT
    ensures |bs| == n && forall i | 0 <= i < n :: bs[i] == ByteAt(fs, f, off + i)
  {
    seq<Byte>(n, i requires 0 <= i => ByteAt(fs, f, off + i))
  }

  lemma OnePiece(fs: Fs, ino: nat, off: nat, data: seq<Byte>, r: MapResult)
    requires Shaped(fs) && ino in fs.files && data != [] && BlockOffset(off) + |data| <= BLOCK
    requires r == WritePiece(fs, ino, off, data) && !r.MapPanic? && Shaped(r.fs) && ino in r.fs.files
    ensures WritePieces(fs, ino, off, data)
            == if r.Mapped? then Wrote(r.fs, |data|, None) else Wrote(r.fs, 0, Some(r.err))
  {
    var m := PieceLength(off, |data|);
    assert m == |data| && data[..m] == data && data[m..] == [];
    assert WritePieces(r.fs, ino, Advance(off, m), []) == Wrote(r.fs, 0, None);
  }

  /** Within one block a metadata write is a write to the flat file. */
  lemma MetaWriteIsWrite(fs: Fs, own: map<nat, Owner>, ino: nat, off: nat, data: seq<Byte>)
    requires Inv(fs, own) && ino in fs.files && data != [] && off < SPAN && BlockOffset(off) + |data| <= BLOCK
    ensures MetaWrite(fs, ino, off, data) == WriteFile(fs, ino, off, data)
  {
    var _ := WritePieceKeeps(fs, own, ino, off, data);
    var r := WritePiece(fs, ino, off, data);
    OnePiece(fs, ino, off, data, r);
  }

  /** Within one block a metadata read gives the bytes of the flat file. */
  lemma MetaReadIsFlat(fs: Fs, own: map<nat, Owner>, ino: nat, off: nat, n: nat)
    requires Inv(fs, own) && ino in fs.files && n > 0 && off < SPAN && BlockOffset(off) + n <= BLOCK
    ensures MetaRead(fs, ino, off, n)
            == if BlockIndex(off) < MAX_BLOCKS
                then Read(BytesAt(fs, fs.files[ino], off, n), None) else Read([], Some(EFBIG))
  {
    var fb := BlockIndex(off);
    InSpan(off);
    var b := BmapReads(fs, own, ino, fb);
    if fb < MAX_BLOCKS {
      var piece := BlockBytes(fs, b.block)[BlockOffset(off)..BlockOffset(off) + n];
      PieceRead(fs, fs.files[ino], off, n, n, piece);
      assert piece == BytesAt(fs, fs.files[ino], off, n);
    }
  }

  // ---------------------------------------------------------------------------------------------
  // Slots

  function SlotOffset(slot: nat): nat { ENTRY * slot }

  /** No slot crosses a block. */
  lemma SlotFits(slot: nat)
    ensures BlockOffset(SlotOffset(slot)) + ENTRY <= BLOCK
    ensures (BlockIndex(SlotOffset(slot)) < MAX_BLOCKS <==> slot < MAX_SLOTS)
  {
    assert SlotOffset(slot) == BLOCK * (slot / 8) + ENTRY * (slot % 8);
  }

  function EntryAt(fs: Fs, f: Inode, slot: nat): Entry
    requires |f.direct| == NDIRECT
  {
    EntryOf(BytesAt(fs, f, SlotOffset(slot), ENTRY))
  }

  /** File dir holds exactly the slots es. */
  predicate DirIs(fs: Fs, dir: nat, es: seq<Entry>)
    requires Shaped(fs)
  {
    && dir in fs.files && fs.files[dir].kind == TYPE_DIR && |es| <= MAX_SLOTS && fs.files[dir].size == SlotOffset(|es|)
    && forall i | 0 <= i < |es| :: EntryAt(fs, fs.files[dir], i) == es[i]
  }

  datatype SlotResult = Got(e: Entry) | SlotError(err: Errno) | SlotPanic

  /** sfs_readdir. */
  function ReadSlot(fs: Fs, dir: nat, slot: nat): SlotResult
    requires Shaped(fs) && dir in fs.files
  {
    SlotFits(slot);
    match MetaRead(fs, dir, SlotOffset(slot), ENTRY)
    case ReadPanic => SlotPanic
    case Read(bs, e) => if e.Some? then SlotError(e.value) else Got(EntryOf(bs))
  }

  /** sfs_writedir. */
  function WriteSlot(fs: Fs, dir: nat, slot: nat, ino: nat, name: seq<Byte>): WriteResult
    requires Shaped(fs) && dir in fs.files && ino < WORD_LIMIT && |name| < NAME_LEN
  {
    SlotFits(slot);
    MetaWrite(fs, dir, SlotOffset(slot), EncodeEntry(ino, name))
  }

  lemma ReadSlotIs(fs: Fs, own: map<nat, Owner>, dir: nat, es: seq<Entry>, slot: nat)
    requires Inv(fs, own) && DirIs(fs, dir, es) && slot < |es|
    ensures ReadSlot(fs, dir, slot) == Got(es[slot])
  {
    SlotFits(slot);
    MetaReadIsFlat(fs, own, dir, SlotOffset(slot), ENTRY);
  }

  function Entered(ino: nat, name: seq<Byte>): Entry { if ino == 0 then Free else Used(ino, name) }

  function Written(es: seq<Entry>, slot: nat, e: Entry): seq<Entry>
    requires slot <= |es|
  {
    if slot < |es| then es[slot := e] else es + [e]
  }

  lemma SlotsApart(slot: nat, k: nat, i: nat)
    requires k != slot && i < ENTRY
    ensures !(SlotOffset(slot) <= SlotOffset(k) + i < SlotOffset(slot) + ENTRY)
  {
  }

  lemma SlotWritten(fs: Fs, fs': Fs, dir: nat, slot: nat, data: seq<Byte>, k: nat)
    requires Shaped(fs) && Shaped(fs') && dir in fs.files && |data| == ENTRY
    requires WritesOnly(fs, fs', dir, SlotOffset(slot), data)
    ensures EntryAt(fs', fs'.files[dir], k) == if k == slot then EntryOf(data) else EntryAt(fs, fs.files[dir], k)
  {
    var off := SlotOffset(k);
    var bs, bs' := BytesAt(fs, fs.files[dir], off, ENTRY), BytesAt(fs', fs'.files[dir], off, ENTRY);
    if k == slot {
      assert bs' == data;
    } else {
      forall i | 0 <= i < ENTRY ensures bs'[i] == bs[i] {
        SlotsApart(slot, k, i);
      }
      assert bs' == bs;
    }
  }

  lemma SlotKept(fs: Fs, fs': Fs, dir: nat, off: nat, k: nat)
    requires Shaped(fs) && Shaped(fs') && dir in fs.files && WritesOnly(fs, fs', dir, off, [])
    ensures EntryAt(fs', fs'.files[dir], k) == EntryAt(fs, fs.files[dir], k)
  {
    var bs, bs' := BytesAt(fs, fs.files[dir], SlotOffset(k), ENTRY), BytesAt(fs', fs'.files[dir], SlotOffset(k), ENTRY);
    assert bs' == bs;
  }

  /** Writing one slot: it alone changes, or nothing does for want of space. */
  ghost predicate SlotContract(fs: Fs, own: map<nat, Owner>, dir: nat, es: seq<Entry>, slot: nat, e: Entry,
                               r: WriteResult, own': map<nat, Owner>)
    requires Shaped(fs) && dir in fs.files && slot <= |es|
  {
    && r.Wrote? && Inv(r.fs, own') && dir in r.fs.files && r.done <= ENTRY && Elsewhere(fs, own, r.fs, dir)
    && (forall b | b in own :: b in own' && own'[b] == own[b])
    && DirIs(r.fs, dir, if r.err == None then Written(es, slot, e) else es)
    && (r.err.Some? ==> if slot == MAX_SLOTS then r.err.value == EFBIG else r.err.value == ENOSPC && Full(r.fs))
  }

  /** What an operation on file dir leaves alone. */
  ghost predicate Elsewhere(fs: Fs, own: map<nat, Owner>, fs': Fs, dir: nat)
    requires Shaped(fs) && Shaped(fs') && dir in fs.files
  {
    && fs'.files.Keys == fs.files.Keys && fs'.nblocks == fs.nblocks && InodesKept(fs, fs', own)
    && (forall k | k in fs.files && k != dir :: fs'.files[k] == fs.files[k])
    && (forall k, o: nat | k in fs.files && k != dir :: ByteAt(fs', fs'.files[k], o) == ByteAt(fs, fs.files[k], o))
    && fs'.files[dir].kind == fs.files[dir].kind && fs'.files[dir].links == fs.files[dir].links
  }

  lemma WriteSlotKeeps(fs: Fs, own: map<nat, Owner>, dir: nat, es: seq<Entry>, slot: nat, ino: nat, name: seq<Byte>)
    returns (r: WriteResult, own': map<nat, Owner>)
    requires Inv(fs, own) && DirIs(fs, dir, es) && slot <= |es|
    requires ino < WORD_LIMIT && |name| < NAME_LEN && IsString(name)
    ensures r == WriteSlot(fs, dir, slot, ino, name)
    ensures SlotContract(fs, own, dir, es, slot, Entered(ino, name), r, own')
  {
    SlotFits(slot);
    var data, off := EncodeEntry(ino, name), SlotOffset(slot);
    EntryRoundTrip(ino, name);
    MetaWriteIsWrite(fs, own, dir, off, data);
    r, own' := WriteIsFlat(fs, own, dir, off, data);
    WholeSlot(fs, own, dir, slot, ino, name, r);
    if r.err == None {
      assert data[..ENTRY] == data;
      DirWritten(fs, dir, es, slot, data, r.fs, Written(es, slot, EntryOf(data)));
    } else {
      DirKept(fs, dir, es, off, r.fs);
    }
  }

  /** A slot is written whole or not at all. */
  lemma WholeSlot(fs: Fs, own: map<nat, Owner>, dir: nat, slot: nat, ino: nat, name: seq<Byte>, r: WriteResult)
    requires Inv(fs, own) && dir in fs.files && ino < WORD_LIMIT && |name| < NAME_LEN
    requires r == WriteSlot(fs, dir, slot, ino, name) && r.Wrote?
    ensures r.done == if r.err == None then ENTRY else 0
  {
  }

  lemma DirWritten(fs: Fs, dir: nat, es: seq<Entry>, slot: nat, data: seq<Byte>, fs': Fs, es': seq<Entry>)
    requires Shaped(fs) && Shaped(fs') && DirIs(fs, dir, es) && slot <= |es| && slot < MAX_SLOTS && |data| == ENTRY
    requires dir in fs'.files
    requires WritesOnly(fs, fs', dir, SlotOffset(slot), data) && es' == Written(es, slot, EntryOf(data))
    requires fs'.files[dir].size
             == if SlotOffset(slot) + ENTRY > fs.files[dir].size then SlotOffset(slot) + ENTRY else fs.files[dir].size
    ensures DirIs(fs', dir, es')
  {
    forall k | 0 <= k < |es'| ensures EntryAt(fs', fs'.files[dir], k) == es'[k] {
      SlotWritten(fs, fs', dir, slot, data, k);
    }
  }

  lemma DirKept(fs: Fs, dir: nat, es: seq<Entry>, off: nat, fs': Fs)
    requires Shaped(fs) && Shaped(fs') && DirIs(fs, dir, es) && dir in fs'.files
    requires WritesOnly(fs, fs', dir, off, []) && fs'.files[dir].size == fs.files[dir].size
    ensures DirIs(fs', dir, es)
  {
    forall k | 0 <= k < |es| ensures EntryAt(fs', fs'.files[dir], k) == es[k] {
      SlotKept(fs, fs', dir, off, k);
    }
  }

  lemma HoleSlotFree(fs: Fs, f: Inode, slot: nat)
    requires |f.direct| == NDIRECT && MapOf(fs, f, BlockIndex(SlotOffset(slot))) == 0
    ensures EntryAt(fs, f, slot) == Free
  {
    SlotFits(slot);
    var off := SlotOffset(slot);
    var bs := BytesAt(fs, f, off, ENTRY);
    forall i | 0 <= i < 4 ensures bs[i] == 0 {
      var o := off + i;
      PieceInBlock(off, ENTRY, o);
    }
  }

  lemma UsedSlotMapped(fs: Fs, dir: nat, es: seq<Entry>, slot: nat)
    requires Shaped(fs) && DirIs(fs, dir, es) && slot < |es| && es[slot].Used?
    ensures MapOf(fs, fs.files[dir], BlockIndex(SlotOffset(slot))) != 0
  {
    if MapOf(fs, fs.files[dir], BlockIndex(SlotOffset(slot))) == 0 {
      HoleSlotFree(fs, fs.files[dir], slot);
    }
  }

  /** A slot in use can always be written: no space is needed, so that unlinking never fails. */
  lemma UsedSlotWrites(fs: Fs, own: map<nat, Owner>, dir: nat, es: seq<Entry>, slot: nat, ino: nat, name: seq<Byte>)
    requires Inv(fs, own) && DirIs(fs, dir, es) && slot < |es| && es[slot].Used? && ino < WORD_LIMIT
    requires |name| < NAME_LEN
    ensures var r := WriteSlot(fs, dir, slot, ino, name); r.Wrote? && r.err == None && r.fs.used == fs.used
  {
    SlotFits(slot);
    UsedSlotMapped(fs, dir, es, slot);
    var _ := BmapKeeps(fs, own, dir, BlockIndex(SlotOffset(slot)), true);
  }

  /** When a slot can be written. */
  lemma SlotWritesExactly(fs: Fs, own: map<nat, Owner>, dir: nat, slot: nat, ino: nat, name: seq<Byte>)
    requires Inv(fs, own) && dir in fs.files && ino < WORD_LIMIT && |name| < NAME_LEN
    ensures var r, fb := WriteSlot(fs, dir, slot, ino, name), FileBlock(SlotOffset(slot));
            r.Wrote? && (r.err == None <==> fb < MAX_BLOCKS && Room(fs, Needs(fs, fs.files[dir], fb)))
  {
    SlotFits(slot);
    var fb := FileBlock(SlotOffset(slot));
    BmapFailsExactly(fs, own, dir, fb);
    var own' := BmapKeeps(fs, own, dir, fb, true);
    var r := Bmap(fs, dir, fb, true);
    if r.Mapped? {
      MappedOwner(r.fs, own', dir, fb);
    }
  }

  // ---------------------------------------------------------------------------------------------
  // sfs_dir_findname

  datatype FindResult = Searched(slot: Option<nat>, ino: nat, empty: Option<nat>) | FindError(err: Errno) | FindPanic

  /** What slot i adds to a search that has come so far. */
  function Visit(s: FindResult, i: nat, e: Entry, name: seq<Byte>): FindResult
    requires s.Searched?
  {
    match e
    case Free => s.(empty := Some(i))
    case Used(ino, n) => if n != name then s else if s.slot.Some? then FindPanic else s.(slot := Some(i), ino := ino)
  }

  function ScanFrom(fs: Fs, dir: nat, name: seq<Byte>, i: nat, n: nat, s: FindResult): FindResult
    requires Shaped(fs) && dir in fs.files && i <= n && s.Searched?
    decreases n - i
  {
    if i == n then s
    else
      match ReadSlot(fs, dir, i)
      case SlotPanic => FindPanic
      case SlotError(e) => FindError(e)
      case Got(e) => var s' := Visit(s, i, e, name); if s'.Searched? then ScanFrom(fs, dir, name, i + 1, n, s') else s'
  }

  /** sfs_dir_findname: the slot of the name, if any, and the last free slot. */
  function FindName(fs: Fs, dir: nat, name: seq<Byte>): FindResult
    requires Shaped(fs) && dir in fs.files
  {
    var f := fs.files[dir];
    if f.kind != TYPE_DIR || f.size % ENTRY != 0 then FindPanic
    else ScanFrom(fs, dir, name, 0, f.size / ENTRY, Searched(None, 0, None))
  }

  /** No name occurs twice. */
  predicate Unique(es: seq<Entry>)
  {
    forall i, j | 0 <= i < j < |es| && es[i].Used? && es[j].Used? :: es[i].name != es[j].name
  }

  /** What a search of the first n slots should say. */
  predicate Answers(es: seq<Entry>, n: nat, name: seq<Byte>, s: FindResult)
    requires n <= |es|
  {
    && s.Searched?
    && (match s.slot
        case Some(k) => k < n && es[k] == Used(s.ino, name)
        case None => forall i | 0 <= i < n && es[i].Used? :: es[i].name != name)
    && (match s.empty
        case Some(k) => k < n && es[k].Free? && forall i | k < i < n :: es[i].Used?
        case None => forall i | 0 <= i < n :: es[i].Used?)
  }

  lemma VisitAnswers(es: seq<Entry>, name: seq<Byte>, i: nat, s: FindResult)
    requires Unique(es) && i < |es| && Answers(es, i, name, s)
    ensures Answers(es, i + 1, name, Visit(s, i, es[i], name))
  {
  }

  lemma ScanStep(fs: Fs, dir: nat, name: seq<Byte>, i: nat, next: nat, n: nat, s: FindResult, e: Entry, s': FindResult)
    requires Shaped(fs) && dir in fs.files && i < n && next == i + 1 && s.Searched?
    requires ReadSlot(fs, dir, i) == Got(e) && s' == Visit(s, i, e, name) && s'.Searched?
    ensures ScanFrom(fs, dir, name, i, n, s) == ScanFrom(fs, dir, name, next, n, s')
  {
  }

  lemma {:induction false} ScanAnswers(fs: Fs, own: map<nat, Owner>, dir: nat, es: seq<Entry>, name: seq<Byte>, i: nat,
                                       n: nat, s: FindResult)
    returns (r: FindResult)
    requires Inv(fs, own) && DirIs(fs, dir, es) && Unique(es) && i <= n == |es| && Answers(es, i, name, s)
    ensures r == ScanFrom(fs, dir, name, i, n, s) && Answers(es, n, name, r)
    decreases n - i
  {
    if i == n {
      r := s;
    } else {
      var next, s' := i + 1, Visit(s, i, es[i], name);
      ReadSlotIs(fs, own, dir, es, i);
      VisitAnswers(es, name, i, s);
      ScanStep(fs, dir, name, i, next, n, s, es[i], s');
      r := ScanAnswers(fs, own, dir, es, name, next, n, s');
    }
  }

  /** A search of the directory finds a name exactly when it is there, where it is, and otherwise a
      free slot if there is one; it neither fails nor panics. */
  lemma FindNameAnswers(fs: Fs, own: map<nat, Owner>, dir: nat, es: seq<Entry>, name: seq<Byte>)
    requires Inv(fs, own) && DirIs(fs, dir, es) && Unique(es)
    ensures Answers(es, |es|, name, FindName(fs, dir, name))
  {
    assert fs.files[dir].size / ENTRY == |es|;
    var r := ScanAnswers(fs, own, dir, es, name, 0, |es|, Searched(None, 0, None));
  }

  // ---------------------------------------------------------------------------------------------
  // sfs_dir_link and sfs_dir_unlink

  datatype LinkResult = Linked(fs: Fs, slot: nat) | NotLinked(fs: Fs, err: Errno) | LinkPanic

  function DirLink(fs: Fs, dir: nat, name: seq<Byte>, ino: nat): LinkResult
    requires Shaped(fs) && dir in fs.files && ino < WORD_LIMIT
  {
    match FindName(fs, dir, name)
    case FindPanic => LinkPanic
    case FindError(e) => NotLinked(fs, e)
    case Searched(slot, _, empty) =>
      if slot.Some? then NotLinked(fs, EEXIST)
      else if |name| + 1 > NAME_LEN then NotLinked(fs, ENAMETOOLONG)
      else
        var k := if empty.Some? then empty.value else fs.files[dir].size / ENTRY;
        match WriteSlot(fs, dir, k, ino, name)
        case WritePanic => LinkPanic
        case Wrote(fs', _, e) => if e.Some? then NotLinked(fs', e.value) else Linked(fs', k)
  }

  function DirUnlink(fs: Fs, dir: nat, slot: nat): WriteResult
    requires Shaped(fs) && dir in fs.files
  {
    WriteSlot(fs, dir, slot, 0, [])
  }

  predicate HasName(es: seq<Entry>, name: seq<Byte>)
  {
    exists i | 0 <= i < |es| :: es[i].Used? && es[i].name == name
  }

  predicate NoFree(es: seq<Entry>)
  {
    forall i | 0 <= i < |es| :: es[i].Used?
  }

  /** Linking enters the name in a free slot or at the end; it fails if the name is there already,
      if it is too long, or if the directory cannot grow. */
  ghost predicate LinkContract(fs: Fs, own: map<nat, Owner>, dir: nat, es: seq<Entry>, name: seq<Byte>, ino: nat,
                               r: LinkResult, own': map<nat, Owner>)
    requires Shaped(fs) && dir in fs.files
  {
    && !r.LinkPanic? && Inv(r.fs, own') && dir in r.fs.files && Elsewhere(fs, own, r.fs, dir)
    && (r.Linked? ==> !HasName(es, name) && |name| < NAME_LEN && r.slot <= |es| && (r.slot < |es| ==> es[r.slot].Free?)
                      && DirIs(r.fs, dir, Written(es, r.slot, Used(ino, name))))
    && (r.NotLinked? ==> DirIs(r.fs, dir, es) && LinkFails(es, name, r.fs, r.err))
  }

  predicate LinkFails(es: seq<Entry>, name: seq<Byte>, fs: Fs, err: Errno)
  {
    if HasName(es, name) then err == EEXIST
    else if |name| >= NAME_LEN then err == ENAMETOOLONG
    else if NoFree(es) && |es| == MAX_SLOTS then err == EFBIG
    else err == ENOSPC && Full(fs)
  }

  lemma AnswersMean(es: seq<Entry>, name: seq<Byte>, s: FindResult)
    requires Answers(es, |es|, name, s)
    ensures (s.slot.Some? <==> HasName(es, name)) && (s.empty.None? <==> NoFree(es))
  {
  }

  /** Where the entry goes. */
  lemma LinkWrites(fs: Fs, dir: nat, es: seq<Entry>, name: seq<Byte>, ino: nat, s: FindResult, k: nat, w: WriteResult)
    requires Shaped(fs) && dir in fs.files && 0 < ino < WORD_LIMIT && s == FindName(fs, dir, name) && s.Searched?
    requires s.slot.None?
    requires |name| < NAME_LEN && fs.files[dir].size == SlotOffset(|es|)
    requires k == if s.empty.Some? then s.empty.value else |es|
    requires w == WriteSlot(fs, dir, k, ino, name) && w.Wrote?
    ensures DirLink(fs, dir, name, ino) == if w.err.Some? then NotLinked(w.fs, w.err.value) else Linked(w.fs, k)
  {
    assert fs.files[dir].size / ENTRY == |es|;
  }

  lemma DirLinkKeeps(fs: Fs, own: map<nat, Owner>, dir: nat, es: seq<Entry>, name: seq<Byte>, ino: nat)
    returns (r: LinkResult, own': map<nat, Owner>)
    requires Inv(fs, own) && DirIs(fs, dir, es) && Unique(es) && IsString(name) && 0 < ino < WORD_LIMIT
    ensures r == DirLink(fs, dir, name, ino) && LinkContract(fs, own, dir, es, name, ino, r, own')
  {
    FindNameAnswers(fs, own, dir, es, name);
    var s := FindName(fs, dir, name);
    AnswersMean(es, name, s);
    if s.slot == None && |name| < NAME_LEN {
      var k := if s.empty.Some? then s.empty.value else |es|;
      var w;
      w, own' := WriteSlotKeeps(fs, own, dir, es, k, ino, name);
      LinkWrites(fs, dir, es, name, ino, s, k, w);
      r := if w.err.Some? then NotLinked(w.fs, w.err.value) else Linked(w.fs, k);
    } else {
      r, own' := NotLinked(fs, if s.slot.Some? then EEXIST else ENAMETOOLONG), own;
    }
  }

  /** Unlinking a slot in use clears it, cannot fail and takes no block. */
  lemma DirUnlinkKeeps(fs: Fs, own: map<nat, Owner>, dir: nat, es: seq<Entry>, slot: nat) returns (r: WriteResult)
    requires Inv(fs, own) && DirIs(fs, dir, es) && slot < |es| && es[slot].Used?
    ensures r == DirUnlink(fs, dir, slot) && r.Wrote? && r.err == None && Inv(r.fs, own) && dir in r.fs.files
    ensures DirIs(r.fs, dir, es[slot := Free]) && Elsewhere(fs, own, r.fs, dir)
  {
    UsedSlotWrites(fs, own, dir, es, slot, 0, []);
    var own';
    r, own' := WriteSlotKeeps(fs, own, dir, es, slot, 0, []);
    SameOwners(own, own');
  }

  lemma SameOwners(own: map<nat, Owner>, own': map<nat, Owner>)
    requires own'.Keys == own.Keys && forall b | b in own :: b in own' && own'[b] == own[b]
    ensures own' == own
  {
  }
}
