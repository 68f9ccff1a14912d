/** Whole runs of a volume: from the freshly formatted one, through any operations. */
module SfsRuns {
  import opened Common
  import opened SfsDisk
  import opened SfsState
  import opened SfsOwnership
  import opened SfsTruncate
  import opened SfsIo
  import opened SfsDir
  import opened SfsCache
  import opened SfsNames
  import opened SfsOps

  // ---------------------------------------------------------------------------------------------
  // A new volume

  /** An empty root directory. */
  predicate EmptyRoot(f: Inode)
  {
    && InodeOk(f) && f.kind == TYPE_DIR && f.size == 0 && f.links == 1 && f.indirect == 0
    && forall i | 0 <= i < NDIRECT :: f.direct[i] == 0
  }

  /** The volume as it is formatted: in use are the superblock, the freemap and the root directory's
      inode; no inode is in memory. */
  ghost predicate Formatted(v: Vol)
  {
    && |v.fs.disk| == v.fs.nblocks < MAX_VOLUME && FREEMAP_START + FreemapBlocks(v.fs.nblocks) <= v.fs.nblocks
    && v.fs.files.Keys == {ROOT_INO} && EmptyRoot(v.fs.files[ROOT_INO])
    && DecodeInode(v.fs.disk[ROOT_INO]) == v.fs.files[ROOT_INO]
    && (forall b :: b in v.fs.used <==> b == 0 || b == ROOT_INO || IsFreemap(v.fs.nblocks, b))
    && v.refs == map[] && v.dirty == {}
  }

  function FirstOwner(b: nat): Owner { if b == 0 then Super else if b == ROOT_INO then InodeOf(ROOT_INO) else Freemap }

  lemma FormattedInv(v: Vol) returns (own: map<nat, Owner>)
    requires Formatted(v)
    ensures VolInv(v, own, [])
  {
    var fs := v.fs;
    own := map b | b in fs.used :: FirstOwner(b);
    assert FileOwns(fs, own, ROOT_INO);
    assert DirIs(fs, ROOT_INO, []);
  }

  // ---------------------------------------------------------------------------------------------
  // Operations on files

  lemma FileLinks(files: map<nat, Inode>, files': map<nat, Inode>, ino: nat, es: seq<Entry>)
    requires OnlyInode(files, files', ino) && EntriesOk(files, es) && LinksOk(files, es, ROOT_INO, 0)
    ensures EntriesOk(files', es) && LinksOk(files', es, ROOT_INO, 0)
  {
    TouchLinks(files, files', ino, es, ROOT_INO, 0);
  }

  /** An operation on one file that is not the directory. */
  lemma FileStep(v: Vol, own: map<nat, Owner>, es: seq<Entry>, ino: nat, fs': Fs, own': map<nat, Owner>)
    requires VolInv(v, own, es) && ino in v.refs && ino != ROOT_INO && Inv(fs', own') && Elsewhere(v.fs, own, fs', ino)
    ensures VolInv(Touch(v, ino, fs'), own', es)
  {
    InodeBlocksKept(v.fs, own, fs');
    TouchHeld(v, ino, fs');
    FileLinks(v.fs.files, fs'.files, ino, es);
    DirSameBytes(v.fs, fs', ROOT_INO, es);
  }

  lemma WriteElsewhere(fs: Fs, own: map<nat, Owner>, ino: nat, at: nat, data: seq<Byte>, r: WriteResult,
                       own': map<nat, Owner>)
    requires Shaped(fs) && ino in fs.files && WriteContract(fs, own, ino, at, data, r, own')
    ensures Elsewhere(fs, own, r.fs, ino)
  {
  }

  /** Writing to a file keeps the volume in order, and leaves all other files alone. */
  lemma WriteStep(v: Vol, own: map<nat, Owner>, es: seq<Entry>, ino: nat, off: nat, data: seq<Byte>)
    returns (r: WriteResult, own': map<nat, Owner>)
    requires VolInv(v, own, es) && ino in v.refs && ino != ROOT_INO
    ensures r == WriteFile(v.fs, ino, off, data) && r.Wrote? && ino in r.fs.files
    ensures VolInv(Touch(v, ino, r.fs), own', es)
    ensures Elsewhere(v.fs, own, r.fs, ino)
  {
    r, own' := WriteAnywhere(v.fs, own, ino, off, data);
    WriteElsewhere(v.fs, own, ino, Landing(off), data, r, own');
    FileStep(v, own, es, ino, r.fs, own');
  }

  lemma TruncElsewhere(fs: Fs, own: map<nat, Owner>, ino: nat, len: nat, fs': Fs)
    requires Shaped(fs) && ino in fs.files && TruncContract(fs, own, ino, len, fs')
    ensures Elsewhere(fs, own, fs', ino)
  {
  }

  lemma DirtyHeld(v: Vol, ino: nat)
    requires HeldOk(v) && ino in v.refs
    ensures HeldOk(v.(dirty := v.dirty + {ino}))
  {
  }

  /** Truncating a file keeps the volume in order, and leaves all other files alone. */
  lemma TruncateStep(v: Vol, own: map<nat, Owner>, es: seq<Entry>, ino: nat, len: nat)
    returns (fs': Fs, own': map<nat, Owner>)
    requires VolInv(v, own, es) && ino in v.refs && ino != ROOT_INO
    ensures Itrunc(v.fs, ino, len) == Some(fs') && VolInv(v.(fs := fs', dirty := v.dirty + {ino}), own', es)
    ensures Shaped(fs') && Elsewhere(v.fs, own, fs', ino)
  {
    fs' := ItruncKeeps(v.fs, own, ino, len);
    own' := OwnersLeft(own, ino, BlocksFor(len), fs'.files[ino].indirect);
    TruncElsewhere(v.fs, own, ino, len, fs');
    FileStep(v, own, es, ino, fs', own');
    DirtyHeld(Touch(v, ino, fs'), ino);
  }

  // ---------------------------------------------------------------------------------------------
  // Runs

  datatype Op =
    | GetRoot
    | Lookup(name: seq<Byte>)
    | CreateOp(name: seq<Byte>, excl: bool)
    | LinkOp(name: seq<Byte>, ino: nat)
    | RemoveOp(name: seq<Byte>)
    | RenameOp(from: seq<Byte>, to: seq<Byte>)
    | ReadOp(ino: nat, off: nat, n: nat)
    | WriteOp(ino: nat, off: nat, data: seq<Byte>)
    | TruncateOp(ino: nat, len: nat)
    | SyncOp(ino: nat)
    | IncrefOp(ino: nat)
    | DecrefOp(ino: nat)

  /** The caller has the vnodes it uses in hand, and names are strings; data goes to files only. */
  predicate Enabled(v: Vol, op: Op)
  {
    match op
    case GetRoot => true
    case Lookup(name) => ROOT_INO in v.refs && IsString(name)
    case CreateOp(name, _) => ROOT_INO in v.refs && IsString(name)
    case LinkOp(name, ino) => ROOT_INO in v.refs && ino in v.refs && IsString(name)
    case RemoveOp(name) => ROOT_INO in v.refs && IsString(name)
    case RenameOp(from, to) => ROOT_INO in v.refs && IsString(from) && IsString(to)
    case ReadOp(ino, _, _) => ino in v.refs && ino != ROOT_INO
    case WriteOp(ino, _, _) => ino in v.refs && ino != ROOT_INO
    case TruncateOp(ino, _) => ino in v.refs && ino != ROOT_INO
    case SyncOp(ino) => ino in v.refs
    case IncrefOp(ino) => ino in v.refs
    case DecrefOp(ino) => ino in v.refs
  }

  /** The outcome of an operation on names: the volume, whether it was done or failed. */
  function Taken(r: Outcome): Option<Vol> { if r.Panicked? then None else Some(r.v) }

  /** One operation; None stands for a panic. */
  function Step(v: Vol, op: Op): Option<Vol>
    requires Fit(v.fs) && Enabled(v, op)
  {
    match op
    case GetRoot => Some(Hold(v, ROOT_INO))
    case Lookup(name) =>
      (match LookOnce(v, name)
       case LookPanic => None
       case NoLook(_) => Some(v)
       case Look(v', _, _) => Some(v'))
    case CreateOp(name, excl) => Taken(Create(v, name, excl))
    case LinkOp(name, ino) => if ino !in v.fs.files || ino >= WORD_LIMIT then None else Taken(Link(v, name, ino))
    case RemoveOp(name) => Taken(Remove(v, name))
    case RenameOp(from, to) => Taken(Rename(v, from, to))
    case ReadOp(ino, off, n) => if ino !in v.fs.files || ReadFile(v.fs, ino, off, n).ReadPanic? then None else Some(v)
    case WriteOp(ino, off, data) =>
      if ino !in v.fs.files then None
      else
        (match WriteFile(v.fs, ino, off, data)
         case WritePanic => None
         case Wrote(fs', _, _) => if ino !in fs'.files then None else Some(Touch(v, ino, fs')))
    case TruncateOp(ino, len) =>
      if ino !in v.fs.files then None
      else
        (match Itrunc(v.fs, ino, len)
         case None => None
         case Some(fs') => Some(v.(fs := fs', dirty := v.dirty + {ino})))
    case SyncOp(ino) =>
      if ino !in v.fs.files || ino >= |v.fs.disk| || !InodeOk(v.fs.files[ino]) then None else Some(SyncVnode(v, ino))
    case IncrefOp(ino) => Some(Hold(v, ino))
    case DecrefOp(ino) => Release(v, ino)
  }

  lemma CreateStep(v: Vol, own: map<nat, Owner>, es: seq<Entry>, name: seq<Byte>, excl: bool)
    returns (v': Vol, own': map<nat, Owner>, es': seq<Entry>)
    requires VolInv(v, own, es) && ROOT_INO in v.refs && IsString(name)
    ensures Taken(Create(v, name, excl)) == Some(v') && VolInv(v', own', es')
  {
    var r;
    r, own', es' := CreateKeeps(v, own, es, name, excl);
    v' := r.v;
  }

  lemma EntryStep(v: Vol, own: map<nat, Owner>, es: seq<Entry>, op: Op)
    returns (v': Vol, own': map<nat, Owner>, es': seq<Entry>)
    requires VolInv(v, own, es) && Enabled(v, op) && (op.CreateOp? || op.LinkOp?)
    ensures Step(v, op) == Some(v') && VolInv(v', own', es')
  {
    match op {
      case CreateOp(name, excl) => v', own', es' := CreateStep(v, own, es, name, excl);
      case LinkOp(name, ino) =>
        var r;
        r, own', es' := LinkKeeps(v, own, es, name, ino);
        v' := r.v;
    }
  }

  lemma NameStep(v: Vol, own: map<nat, Owner>, es: seq<Entry>, op: Op)
    returns (v': Vol, own': map<nat, Owner>, es': seq<Entry>)
    requires VolInv(v, own, es) && Enabled(v, op) && (op.RemoveOp? || op.RenameOp?)
    ensures Step(v, op) == Some(v') && VolInv(v', own', es')
  {
    var r;
    match op {
      case RemoveOp(name) => r, own', es' := RemoveKeeps(v, own, es, name);
      case RenameOp(from, to) => r, own', es' := RenameKeeps(v, own, es, from, to);
    }
    v' := r.v;
  }

  lemma DataStep(v: Vol, own: map<nat, Owner>, es: seq<Entry>, op: Op) returns (v': Vol, own': map<nat, Owner>)
    requires VolInv(v, own, es) && Enabled(v, op) && (op.ReadOp? || op.WriteOp? || op.TruncateOp?)
    ensures Step(v, op) == Some(v') && VolInv(v', own', es)
  {
    match op {
      case ReadOp(ino, off, n) =>
        var r := ReadIsFlat(v.fs, own, ino, off, n);
        v', own' := v, own;
      case WriteOp(ino, off, data) =>
        var r;
        r, own' := WriteStep(v, own, es, ino, off, data);
        v' := Touch(v, ino, r.fs);
      case TruncateOp(ino, len) =>
        var fs';
        fs', own' := TruncateStep(v, own, es, ino, len);
        v' := v.(fs := fs', dirty := v.dirty + {ino});
    }
  }

  lemma VnodeStep(v: Vol, own: map<nat, Owner>, es: seq<Entry>, op: Op) returns (v': Vol, own': map<nat, Owner>)
    requires VolInv(v, own, es) && Enabled(v, op)
    requires (op.GetRoot? || op.Lookup? || op.SyncOp? || op.IncrefOp? || op.DecrefOp?)
    ensures Step(v, op) == Some(v') && VolInv(v', own', es)
  {
    own' := own;
    match op {
      case GetRoot =>
        HoldStep(v, own, es, ROOT_INO);
        v' := Hold(v, ROOT_INO);
      case Lookup(name) =>
        var l := LookKeeps(v, own, es, name);
        v' := if l.Look? then l.v else v;
      case SyncOp(ino) =>
        v' := SyncStep(v, own, es, ino);
      case IncrefOp(ino) =>
        HoldStep(v, own, es, ino);
        v' := Hold(v, ino);
      case DecrefOp(ino) =>
        v', own' := ReleaseStep(v, own, es, ino);
    }
  }

  /** Every operation keeps the volume in order, and none panics. */
  lemma StepKeeps(v: Vol, own: map<nat, Owner>, es: seq<Entry>, op: Op)
    returns (v': Vol, own': map<nat, Owner>, es': seq<Entry>)
    requires VolInv(v, own, es) && Enabled(v, op)
    ensures Step(v, op) == Some(v') && VolInv(v', own', es')
  {
    if op.CreateOp? || op.LinkOp? {
      v', own', es' := EntryStep(v, own, es, op);
    } else if op.RemoveOp? || op.RenameOp? {
      v', own', es' := NameStep(v, own, es, op);
    } else {
      es' := es;
      if op.ReadOp? || op.WriteOp? || op.TruncateOp? {
        v', own' := DataStep(v, own, es, op);
      } else {
        v', own' := VnodeStep(v, own, es, op);
      }
    }
  }

  /** A run of operations on a new volume; nothing is said of what follows a panic. */
  ghost predicate IsRun(vs: seq<Vol>, ops: seq<Op>)
  {
    && |vs| == |ops| + 1 && Formatted(vs[0])
    && forall i | 0 <= i < |ops| ::
         Fit(vs[i].fs) ==>
           Enabled(vs[i], ops[i]) && (Step(vs[i], ops[i]).Some? ==> vs[i + 1] == Step(vs[i], ops[i]).value)
  }

  lemma RunOp(vs: seq<Vol>, ops: seq<Op>, i: nat, v: Vol, op: Op)
    requires IsRun(vs, ops) && i < |ops| && v == vs[i] && op == ops[i] && Fit(v.fs)
    ensures Enabled(v, op) && (Step(v, op).Some? ==> Step(v, op).value == vs[i + 1])
  {
  }

  lemma RunStart(vs: seq<Vol>, ops: seq<Op>) returns (own: map<nat, Owner>)
    requires IsRun(vs, ops)
    ensures VolInv(vs[0], own, [])
  {
    own := FormattedInv(vs[0]);
  }

  lemma {:induction false} RunInv(vs: seq<Vol>, ops: seq<Op>, i: nat) returns (own: map<nat, Owner>, es: seq<Entry>)
    requires IsRun(vs, ops) && i < |vs|
    ensures VolInv(vs[i], own, es)
  {
    if i == 0 {
      own := RunStart(vs, ops);
      es := [];
    } else {
      var k := i - 1;
      own, es := RunInv(vs, ops, k);
      RunOp(vs, ops, k, vs[k], ops[k]);
      var v';
      v', own, es := StepKeeps(vs[k], own, es, ops[k]);
    }
  }

  /** In no run does an operation panic. */
  lemma RunNeverPanics(vs: seq<Vol>, ops: seq<Op>, i: nat)
    requires IsRun(vs, ops) && i < |ops|
    ensures Fit(vs[i].fs) && Enabled(vs[i], ops[i]) && Step(vs[i], ops[i]) == Some(vs[i + 1])
  {
    var own, es := RunInv(vs, ops, i);
    RunOp(vs, ops, i, vs[i], ops[i]);
    var v', own', es' := StepKeeps(vs[i], own, es, ops[i]);
  }

  // ---------------------------------------------------------------------------------------------
  // What holds throughout

  /** A use of a block is the one recorded. */
  lemma UseIsOwner(fs: Fs, own: map<nat, Owner>, b: nat, o: Owner)
    requires Inv(fs, own) && Backed(fs, b, o)
    ensures Owned(own, b, o)
  {
    if o.InodeOf? || o.Direct? || o.Indirect? || o.Slot? {
      assert FileOwns(fs, own, o.ino);
    }
  }

  /** In every state of every run, a block is marked in use exactly if there is a use for it, and
      then there is one only. */
  lemma RunOneOwner(vs: seq<Vol>, ops: seq<Op>, i: nat, b: nat)
    requires IsRun(vs, ops) && i < |vs|
    ensures Shaped(vs[i].fs) && (b in vs[i].fs.used <==> exists o :: Backed(vs[i].fs, b, o))
    ensures forall o, p | Backed(vs[i].fs, b, o) && Backed(vs[i].fs, b, p) :: o == p
  {
    var own, es := RunInv(vs, ops, i);
    var fs := vs[i].fs;
    forall o | Backed(fs, b, o) ensures b in own && own[b] == o {
      UseIsOwner(fs, own, b, o);
    }
    if b in fs.used {
      assert Backed(fs, b, own[b]);
    }
  }

  /** In every state of every run, no two blocks of files lie in the same disk block. */
  lemma RunBlocksApart(vs: seq<Vol>, ops: seq<Op>, i: nat, fs: Fs, ino: nat, fb: nat, ino': nat, fb': nat)
    requires IsRun(vs, ops) && i < |vs| && fs == vs[i].fs && ino in fs.files && ino' in fs.files
    requires |fs.files[ino].direct| == |fs.files[ino'].direct| == NDIRECT && (ino != ino' || fb != fb')
    ensures MapOf(fs, fs.files[ino], fb) == 0 || MapOf(fs, fs.files[ino], fb) != MapOf(fs, fs.files[ino'], fb')
  {
    var own, es := RunInv(vs, ops, i);
    var b := MapOf(fs, fs.files[ino], fb);
    if b != 0 && b == MapOf(fs, fs.files[ino'], fb') {
      MappedOwner(fs, own, ino, fb);
      MappedOwner(fs, own, ino', fb');
    }
  }

  /** In every state of every run, link counts are numbers of names, no name occurs twice, every
      vnode not marked dirty is as on disk, and a file without a name is in somebody's hands. */
  lemma RunLinks(vs: seq<Vol>, ops: seq<Op>, i: nat) returns (es: seq<Entry>)
    requires IsRun(vs, ops) && i < |vs|
    ensures Shaped(vs[i].fs) && DirIs(vs[i].fs, ROOT_INO, es) && Unique(es) && HeldOk(vs[i])
    ensures forall k | k in vs[i].fs.files && k != ROOT_INO :: vs[i].fs.files[k].links == Count(es, k) <= MAX_SLOTS
  {
    var own;
    own, es := RunInv(vs, ops, i);
  }
}
