/** A run after which writing nothing fails. */
module SfsReached {
  import opened Common
  import opened SfsDisk
  import opened SfsState
  import opened SfsOwnership
  import opened SfsIo
  import opened SfsDir
  import opened SfsNames
  import opened SfsOps
  import opened SfsRuns

  // ---------------------------------------------------------------------------------------------
  // The first name

  /** In an empty directory the first name takes one block. */
  lemma FirstName(fs: Fs, own: map<nat, Owner>, name: seq<Byte>, ino: nat)
    requires Inv(fs, own) && DirIs(fs, ROOT_INO, []) && !Full(fs)
    requires 0 < ino < WORD_LIMIT && |name| < NAME_LEN && IsString(name)
    ensures var r := DirLink(fs, ROOT_INO, name, ino); r.Linked? && r.fs.nblocks == fs.nblocks
  {
    FindNameAnswers(fs, own, ROOT_INO, [], name);
    var k := 0;
    SlotWritesExactly(fs, own, ROOT_INO, k, ino, name);
    LinkWrites(fs, ROOT_INO, [], name, ino, FindName(fs, ROOT_INO, name), k, WriteSlot(fs, ROOT_INO, k, ino, name));
    var r, own' := DirLinkKeeps(fs, own, ROOT_INO, [], name, ino);
  }

  /** The file is in its maker's hands, and has a name. */
  ghost predicate Named(v: Vol, v': Vol, own: map<nat, Owner>, es: seq<Entry>, b: nat)
  {
    && VolInv(v', own, es) && v'.fs.nblocks == v.fs.nblocks && b in v'.fs.files && b in v'.refs && b != ROOT_INO
    && SomeUsed(es)
  }

  predicate SomeUsed(es: seq<Entry>) { exists k | 0 <= k < |es| :: es[k].Used? }

  lemma OneEntry(v: Vol, b: nat, name: seq<Byte>, l: LinkResult, v': Vol, es: seq<Entry>)
    requires Shaped(v.fs) && Shaped(v'.fs) && b in v.fs.files && l.Linked? && EnterContract(v, [], b, name, l, v', es)
    ensures SomeUsed(es)
  {
    assert es == [Used(b, name)];
    assert es[0].Used?;
  }

  lemma FirstEntry(v: Vol, own: map<nat, Owner>, b: nat, name: seq<Byte>)
    returns (l: LinkResult, v': Vol, own': map<nat, Owner>, es: seq<Entry>)
    requires VolInv(v, own, []) && ROOT_INO in v.refs && !Full(v.fs) && |name| < NAME_LEN && IsString(name)
    requires b in v.refs && b != ROOT_INO && b in v.fs.files
    ensures b < WORD_LIMIT && l == DirLink(v.fs, ROOT_INO, name, b) && l.Linked? && Fit(l.fs) && b in l.fs.files
    ensures v' == Counted(v, b, l) && Named(v, v', own', es, b)
  {
    FileNumber(v.fs, own, b);
    FirstName(v.fs, own, name, b);
    l, v', own', es := EnterName(v, own, [], b, name);
    OneEntry(v, b, name, l, v', es);
  }

  lemma FirstLink(v: Vol, own: map<nat, Owner>, b: nat, name: seq<Byte>)
    returns (v': Vol, own': map<nat, Owner>, es: seq<Entry>)
    requires VolInv(v, own, []) && ROOT_INO in v.refs && !Full(v.fs) && |name| < NAME_LEN && IsString(name)
    requires b in v.refs && b != ROOT_INO && b in v.fs.files && v.fs.files[b].kind == TYPE_FILE
    ensures b < WORD_LIMIT && Link(v, name, b) == Done(v', b) && Named(v, v', own', es, b)
  {
    var l;
    l, v', own', es := FirstEntry(v, own, b, name);
    LinkIs(v, name, b, l, Done(v', b));
  }

  /** Creating the first file succeeds, given two blocks. */
  lemma FirstFile(v: Vol, own: map<nat, Owner>, name: seq<Byte>, excl: bool)
    returns (v': Vol, own': map<nat, Owner>, es: seq<Entry>, b: nat)
    requires VolInv(v, own, []) && ROOT_INO in v.refs && |name| < NAME_LEN && IsString(name)
    requires !Full(v.fs) && !Full(MakeFile(v).fs)
    ensures Create(v, name, excl) == Done(v', b) && Named(v, v', own', es, b)
  {
    var s := FindKeeps(v, own, [], name);
    var v1, own1;
    v1, own1, b := MakeKeeps(v, own, []);
    v', own', es := FirstLink(v1, own1, b, name);
    CreateMade(v, name, excl, s, v1, b, Done(v', b), Done(v', b));
  }

  // ---------------------------------------------------------------------------------------------
  // A volume of five blocks

  const FIVE: nat := 5

  lemma FiveBlocks(v: Vol)
    requires Formatted(v) && v.fs.nblocks == FIVE
    ensures !Full(v.fs) && Shaped(v.fs) && !Full(MakeFile(v).fs)
  {
    assert forall b :: IsFreemap(FIVE, b) <==> b == 2;
    assert 3 !in v.fs.used && 4 !in v.fs.used;
  }

  /** Five blocks with five different owners are all there are. */
  lemma AllFive(own: map<nat, Owner>, b: nat, d: nat)
    requires (forall x | x in own :: x < FIVE) && {0, ROOT_INO, 2, b, d} <= own.Keys
    requires own[0] == Super && own[ROOT_INO] == InodeOf(ROOT_INO) && own[2] == Freemap && own[b] == InodeOf(b)
    requires b != ROOT_INO && (own[d].Direct? || own[d].Slot?)
    ensures forall x | 0 <= x < FIVE :: x in own && (x == d || !own[x].Direct?)
  {
    assert b == 3 || b == 4;
    assert d == 3 || d == 4;
  }

  /** One name fills the volume: one block is the inode, the other is the directory's. */
  lemma FilledByOne(fs: Fs, own: map<nat, Owner>, es: seq<Entry>, slot: nat, b: nat)
    requires Inv(fs, own) && DirIs(fs, ROOT_INO, es) && fs.nblocks == FIVE && slot < |es| && es[slot].Used?
    requires b in fs.files && b != ROOT_INO
    ensures Full(fs) && fs.files[b].direct[0] == 0
  {
    var fb := BlockIndex(SlotOffset(slot));
    UsedSlotMapped(fs, ROOT_INO, es, slot);
    MappedOwner(fs, own, ROOT_INO, fb);
    assert FileOwns(fs, own, ROOT_INO) && FileOwns(fs, own, b);
    assert IsFreemap(FIVE, 2);
    AllFive(own, b, MapOf(fs, fs.files[ROOT_INO], fb));
  }

  ghost predicate NothingFails(v: Vol, ino: nat)
  {
    && Shaped(v.fs) && ino in v.fs.files
    && var r := WriteFile(v.fs, ino, 1, []); r.Wrote? && r.done == 0 && r.err == Some(ENOSPC)
  }

  lemma NamedFails(v: Vol, v': Vol, own: map<nat, Owner>, es: seq<Entry>, b: nat)
    requires Named(v, v', own, es, b) && v.fs.nblocks == FIVE
    ensures NothingFails(v', b)
  {
    var slot :| 0 <= slot < |es| && es[slot].Used?;
    FilledByOne(v'.fs, own, es, slot, b);
    WriteNothingFails(v'.fs, own, b, 1);
    var r, own' := WriteAnywhere(v'.fs, own, b, 1, []);
  }

  // ---------------------------------------------------------------------------------------------
  // The run

  ghost predicate Goes(v: Vol, op: Op, v': Vol)
  {
    Fit(v.fs) && Enabled(v, op) && Step(v, op) == Some(v')
  }

  lemma ThreeSteps(vs: seq<Vol>, ops: seq<Op>)
    requires |vs| == 4 && |ops| == 3 && Formatted(vs[0])
    requires Goes(vs[0], ops[0], vs[1]) && Goes(vs[1], ops[1], vs[2]) && Goes(vs[2], ops[2], vs[3])
    ensures IsRun(vs, ops)
  {
    forall i | 0 <= i < |ops| ensures Goes(vs[i], ops[i], vs[i + 1]) {
      assert i == 0 || i == 1 || i == 2;
    }
  }

  lemma GoesRoot(v: Vol)
    requires Fit(v.fs)
    ensures Goes(v, GetRoot, Hold(v, ROOT_INO))
  {
  }

  lemma GoesCreate(v: Vol, name: seq<Byte>, r: Outcome)
    requires Fit(v.fs) && ROOT_INO in v.refs && IsString(name) && r == Create(v, name, true) && r.Done?
    ensures Goes(v, CreateOp(name, true), r.v)
  {
  }

  lemma OneMade(v: Vol, own: map<nat, Owner>, name: seq<Byte>)
    returns (v': Vol, own': map<nat, Owner>, es: seq<Entry>, ino: nat)
    requires VolInv(v, own, []) && ROOT_INO in v.refs && |name| < NAME_LEN && IsString(name)
    requires !Full(v.fs) && !Full(MakeFile(v).fs)
    ensures Goes(v, CreateOp(name, true), v') && Named(v, v', own', es, ino)
  {
    v', own', es, ino := FirstFile(v, own, name, true);
    GoesCreate(v, name, Done(v', ino));
  }

  lemma ThenWritten(v: Vol, v2: Vol, own: map<nat, Owner>, es: seq<Entry>, ino: nat, op: Op) returns (v3: Vol)
    requires Named(v, v2, own, es, ino) && op.WriteOp? && op.ino == ino
    ensures Goes(v2, op, v3)
  {
    var own3, es3;
    v3, own3, es3 := StepKeeps(v2, own, es, op);
  }

  lemma MadeAndWritten(v: Vol, own: map<nat, Owner>, name: seq<Byte>, off: nat, data: seq<Byte>)
    returns (v': Vol, ino: nat, v3: Vol)
    requires VolInv(v, own, []) && ROOT_INO in v.refs && |name| < NAME_LEN && IsString(name) && v.fs.nblocks == FIVE
    requires !Full(v.fs) && !Full(MakeFile(v).fs)
    ensures Goes(v, CreateOp(name, true), v') && NothingFails(v', ino) && Goes(v', WriteOp(ino, off, data), v3)
  {
    var own', es;
    v', own', es, ino := OneMade(v, own, name);
    NamedFails(v, v', own', es, ino);
    v3 := ThenWritten(v, v', own', es, ino, WriteOp(ino, off, data));
  }

  /** Making one file on a new volume of five blocks, and then writing nothing to it at offset 1: the
      write fails, as a block is wanted all the same. */
  lemma WritingNothingFails(v: Vol, name: seq<Byte>) returns (vs: seq<Vol>, ino: nat)
    requires Formatted(v) && v.fs.nblocks == FIVE && IsString(name) && |name| < NAME_LEN
    ensures IsRun(vs, [GetRoot, CreateOp(name, true), WriteOp(ino, 1, [])]) && vs[0] == v && NothingFails(vs[2], ino)
  {
    var v1 := Hold(v, ROOT_INO);
    var own := FormattedInv(v);
    HoldStep(v, own, [], ROOT_INO);
    FiveBlocks(v);
    GoesRoot(v);
    var v2, v3;
    v2, ino, v3 := MadeAndWritten(v1, own, name, 1, []);
    vs := [v, v1, v2, v3];
    ThreeSteps(vs, [GetRoot, CreateOp(name, true), WriteOp(ino, 1, [])]);
  }
}
